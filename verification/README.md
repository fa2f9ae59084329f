# DeepWiki to Markdown: a Dafny model

This project models the parsing pipeline of the DeepWiki Markdown exporter and proves
properties of it. The pipeline has two halves:

- **The Python parser** (`backend/python/parse_deepwiki.py`). It turns a GitHub repository address into its
  DeepWiki address. It converts the page's content element into Markdown with the recursive
  `_process_element` walk. It prints that Markdown to standard output between a begin marker
  and an end marker, with `[stage] n%: message` progress lines before it.
- **The Node server** (`backend/nodejs/server.js`). It starts one parser process per request and keeps the task
  in `activeTasks`. It cuts the process's standard output into lines, collects the framed
  Markdown and turns progress lines into task updates and socket notices. When the process
  closes, it settles the task. It also cancels tasks on request and on socket disconnect.

Modules:

| file | module | what it holds |
|---|---|---|
| `options.dfy` | `Options` | `Option`, for Python's `None` and JavaScript's `null` |
| `strings.dfy` | `Strings` | the string operations both halves rely on: `strip`, `replace`, `split`, `splitlines`, `join`, decimal printing and `parseInt`, with their laws |
| `html_tree.dfy` | `HtmlTree` | the parsed page as a tree of text and element nodes; the `find` and `find_all` descendant searches |
| `markdown_spec.dfy` | `MarkdownSpec` | `Emit`: what `_process_element` writes for a node, as a function, one `Rule` per branch of its `if`/`elif` chain |
| `markdown_emitter.dfy` | `MarkdownEmitter` | the walk as the source writes it: a `Stream` (the `io.StringIO`) that the methods append to, each loop proved to write exactly `Emit` |
| `markdown_laws.dfy` | `MarkdownLaws` | rule by rule, what each kind of node writes, stated over its children's emissions |
| `deepwiki_url.dfy` | `DeepWikiUrl` | `github_to_deepwiki_url` and its properties |
| `framing.dfy` | `Framing` | the printed frame and progress lines; the progress regular expression; the line-by-line state of the `data` handler |
| `tasks.dfy` | `Tasks` | task records, the close-handler settlement, cancel and disconnect; `TaskTable` is `activeTasks` |
| `session.dfy` | `ParseSession` | one `parseDeepWiki` call as a `Session` object: the standard output buffer and the `data`, standard error and `close` handlers |

The main results:

- The imperative emitter writes exactly `Emit(root, parent)`.
- The laws describe every tag's output.
- The framed output of the parser is read back by the server as the same Markdown, after any
  complete lines printed before it (the progress lines and the converted address) and however
  the stream is cut into chunks (`FramedRoundTrip`, `StreamRoundTrip`, `SessionRoundTrip`).
- Every progress line the parser prints is read back as the same stage, percentage and
  message (`ProgressRoundTrip`).
- The close, cancel and disconnect handlers change exactly the fields and tasks the source
  changes.

## Model

| member | source | states |
|---|---|---|
| Strings.StripEmpty | backend/python/parse_deepwiki.py:136-137 | a stripped text is empty exactly when every character is white space |
| Strings.StripTrimmed | backend/python/parse_deepwiki.py:136 | a non-empty stripped text starts and ends with a non-space character |
| Strings.StripOf | backend/python/parse_deepwiki.py:64 | white space around a core that starts and ends with a non-space is exactly what `strip()` removes |
| Strings.StripIdempotent | backend/python/parse_deepwiki.py:314 | stripping twice is stripping once |
| Strings.Strip | backend/python/parse_deepwiki.py:136 | `strip()` never lengthens the text; StripSlice, StripEmpty, StripTrimmed and StripOf state which characters it removes |
| Strings.StripSlice | backend/python/parse_deepwiki.py:136 | `strip()` keeps a slice of the text: it only removes characters from the two ends |
| Strings.ReplaceAllAbsent | backend/python/parse_deepwiki.py:69 | `replace` changes nothing when the pattern does not occur |
| Strings.ReplaceAllRemoves | backend/python/parse_deepwiki.py:69 | no occurrence of the pattern is left after `replace`, when the replacement cannot combine with surrounding text into a new one |
| Strings.ReplaceSkips | backend/python/parse_deepwiki.py:69 | a prefix in which the pattern cannot start is copied unchanged |
| Strings.ReplaceAtStart | backend/python/parse_deepwiki.py:69 | a text that starts with the pattern starts with the replacement |
| Strings.ReplaceAll | backend/python/parse_deepwiki.py:69 | `str.replace` scans left to right and replaces non-overlapping occurrences; its effect is stated by ReplaceAllAbsent, ReplaceAllRemoves, ReplaceSkips and ReplaceAtStart |
| Strings.Repeat | backend/python/parse_deepwiki.py:332 | `[x] * n` has length `n` and holds `x` at every index |
| Strings.ConcatAppend | backend/python/parse_deepwiki.py:208 | `''.join` of two runs of fragments is the join of the first followed by that of the second |
| Strings.SplitOn | backend/nodejs/server.js:83 | `split(c)` gives at least one piece; SplitOnPieces and JoinSplit state that the pieces are separator-free and join back to the text |
| Strings.SplitOnPieces | backend/nodejs/server.js:83 | no piece of `split(c)` contains `c` |
| Strings.JoinSplit | backend/nodejs/server.js:101 | joining the pieces of `split(c)` with `c` gives back the text |
| Strings.SplitTerminated | backend/python/parse_deepwiki.py:383-384 | newline-free lines printed one per line split back into the same lines, then the rest |
| Strings.TerminatedInjective | backend/nodejs/server.js:83-85 | the complete lines and the unfinished tail of a text are determined by the text |
| Strings.JoinIsTerminated | backend/nodejs/server.js:101 | joining lines with newlines is terminating all but the last |
| Strings.SplitLines | backend/python/parse_deepwiki.py:282 | `splitlines()` gives lines free of line boundaries, and none exactly for the empty text |
| Strings.SplitLinesOnNewlines | backend/python/parse_deepwiki.py:282 | on a text whose only boundaries are newlines, `splitlines()` is `split('\n')` without the final empty piece a closing newline leaves, and no lines for the empty text |
| Strings.NatToString | backend/python/parse_deepwiki.py:358 | a printed percentage is a non-empty run of decimal digits |
| Strings.ParseNatToString | backend/nodejs/server.js:122 | `parseInt(digits, 10)` of a printed number gives the number back |
| HtmlTree.FindAll | backend/python/parse_deepwiki.py:310 | `find_all` returns only elements with one of the requested names, each no larger than the subtree searched |
| HtmlTree.Find | backend/python/parse_deepwiki.py:308 | `find` returns, if anything, an element with the requested name from inside the children |
| HtmlTree.FindAllNamed | backend/python/parse_deepwiki.py:310 | `find_all` returns exactly the descendants that are elements with a requested name, in document order, each with its parent's name |
| HtmlTree.FindBelowNamed | backend/python/parse_deepwiki.py:310 | within one child, the hits are the child itself when it has a requested name, then the hits below it |
| HtmlTree.NamedEmpty | backend/python/parse_deepwiki.py:307-310 | nothing is found exactly when no descendant is an element with a requested name |
| HtmlTree.FindFirst | backend/python/parse_deepwiki.py:307-308 | `find` returns the first element with the name in document order, and `None` exactly when no descendant has that name |
| MarkdownSpec.HeadingLevel | backend/python/parse_deepwiki.py:144-184 | a level is between 0 and 6, and a non-zero level `k` belongs only to the name `h` followed by digit `k` |
| MarkdownSpec.HeadingLevelOf | backend/python/parse_deepwiki.py:144-184 | each of `h1` … `h6` gets its digit as level and the heading rule with that level |
| MarkdownSpec.RuleOf | backend/python/parse_deepwiki.py:144-345 | the branch taken: a heading exactly when the level is non-zero, with that level (with HeadingLevelOf: exactly for `h1`…`h6`); skipping exactly for `button`, `script`, `style`; the generic walk exactly for a name no branch tests |
| MarkdownSpec.LanguageNone | backend/python/parse_deepwiki.py:241-246 | a `pre` with no `language-` class has an empty fence language |
| MarkdownSpec.LanguageLastWins | backend/python/parse_deepwiki.py:241-246 | the last `language-` class gives the fence language, with every `language-` removed from it |
| MarkdownSpec.Pad | backend/python/parse_deepwiki.py:336-337 | a padded row has at least the header's width, starts with the row itself and holds empty cells after it |
| MarkdownSpec.DirectItems | backend/python/parse_deepwiki.py:265 | `find_all('li', recursive=False)` gives only `li` elements, no larger in total than the children |
| MarkdownSpec.Emit | backend/python/parse_deepwiki.py:133-345 | what `_process_element` writes for a node: the stripped text of a text node, or what the element's rule writes; the MarkdownLaws rows state it rule by rule |
| MarkdownSpec.EmitElement | backend/python/parse_deepwiki.py:141-345 | the `if`/`elif` chain: the branch of `RuleOf` applied to the element's children and attributes; stated rule by rule by the MarkdownLaws rows |
| MarkdownSpec.TableHeadersEmpty | backend/python/parse_deepwiki.py:307-314 | a table has no header cells exactly when it has no `thead`, or nothing below its first `thead` is a `th` |
| MarkdownEmitter.Stream.constructor | backend/python/parse_deepwiki.py:125 | a new `StringIO` is empty |
| MarkdownEmitter.Stream.Write | backend/python/parse_deepwiki.py:138 | `write` appends its text and nothing else |
| MarkdownEmitter.ConvertToMarkdown | backend/python/parse_deepwiki.py:122-131 | the converted text is `Emit` of the content element |
| MarkdownEmitter.ProcessElement | backend/python/parse_deepwiki.py:133-345 | processing a node appends exactly `Emit(n, parent)` to the stream |
| MarkdownEmitter.WriteChildren | backend/python/parse_deepwiki.py:187-188 | the loop over the children appends each child's emission in order |
| MarkdownEmitter.WriteWithoutButtons | backend/python/parse_deepwiki.py:146-148 | a heading's loop appends the emission of every child that is not a `button`, in order |
| MarkdownEmitter.CollectLinkText | backend/python/parse_deepwiki.py:194-206 | the link text collected is a text child's raw text, an `img` child's `alt`, any other child's emission, in order |
| MarkdownEmitter.ScanLanguage | backend/python/parse_deepwiki.py:241-246 | the class scan returns the fence language `Language(classes)` |
| MarkdownEmitter.WriteBullets | backend/python/parse_deepwiki.py:255-260 | the `ul` loop appends one bullet per `li` child and nothing for other children |
| MarkdownEmitter.WriteNumbered | backend/python/parse_deepwiki.py:265-269 | the `ol` loop appends the numbered entries of the direct `li` children |
| MarkdownEmitter.CollectQuoteLines | backend/python/parse_deepwiki.py:278-282 | the lines collected are the lines of each child's emission, child after child |
| MarkdownEmitter.WriteQuoteLines | backend/python/parse_deepwiki.py:284-288 | the loop appends every line quoted |
| MarkdownEmitter.PadRow | backend/python/parse_deepwiki.py:336-337 | the `while` loop pads the row to the header's width |
| MarkdownEmitter.WriteRows | backend/python/parse_deepwiki.py:334-338 | the body rows are appended padded, in order |
| MarkdownEmitter.WriteTable | backend/python/parse_deepwiki.py:302-340 | the table branch appends exactly what `Emit` gives for a table |
| MarkdownEmitter.CollectCells | backend/python/parse_deepwiki.py:311-314 | each found cell's emission is collected stripped, in order |
| MarkdownEmitter.CollectHeaders | backend/python/parse_deepwiki.py:307-314 | the header cells are the stripped `th` cells below the first `thead` |
| MarkdownEmitter.CollectRows | backend/python/parse_deepwiki.py:316-327 | the body rows are the stripped `td`/`th` cells of each `tr` below the first `tbody` |
| MarkdownLaws.Emitted | backend/python/parse_deepwiki.py:187-188 | one emission per child |
| MarkdownLaws.EmitAllIsConcat | backend/python/parse_deepwiki.py:187-188 | the loop's output is the children's emissions concatenated |
| MarkdownLaws.TextLaw | backend/python/parse_deepwiki.py:135-139 | a text node writes nothing exactly when it is white space only; otherwise its stripped text, which begins and ends with a non-space |
| MarkdownLaws.InlineWrapLaw | backend/python/parse_deepwiki.py:216-226 | `strong`/`b` write their children between `**`, `em`/`i` between `*` |
| MarkdownLaws.ParagraphLaw | backend/python/parse_deepwiki.py:186-189 | `p` writes its children then a blank line |
| MarkdownLaws.TransparentLaw | backend/python/parse_deepwiki.py:272-345 | `li` and every tag no branch names write exactly their children |
| MarkdownLaws.SkippedLaw | backend/python/parse_deepwiki.py:343-345 | `button`, `script` and `style` write nothing, whatever they hold |
| MarkdownLaws.ChildlessBlocks | backend/python/parse_deepwiki.py:144-189 | a childless `p` writes a blank line, and a childless heading `h1` … `h6` writes its level's number of `#` signs, a space and a blank line: an empty element is not dropped |
| MarkdownLaws.WithoutButtonsIsConcat | backend/python/parse_deepwiki.py:146-148 | a heading's loop writes the emissions of its non-`button` children, concatenated |
| MarkdownLaws.ButtonSkipRedundant | backend/python/parse_deepwiki.py:146-148 | leaving `button` children out changes nothing, since a `button` writes nothing |
| MarkdownLaws.HeadingLaw | backend/python/parse_deepwiki.py:144-184 | `hN` writes `N` `#` signs and a space, its children without `button`s, a blank line; the same text as with all children |
| MarkdownLaws.LinkTextIsConcat | backend/python/parse_deepwiki.py:195-208 | the raw link text is the pieces of the children joined |
| MarkdownLaws.LinkLaw | backend/python/parse_deepwiki.py:191-214 | `a` writes `[text](href)`; `href` defaults to `#`; blank text is replaced by `href` |
| MarkdownLaws.CodeLaw | backend/python/parse_deepwiki.py:228-238 | `code` writes its children bare inside a `pre` and between backticks elsewhere |
| MarkdownLaws.PreLaw | backend/python/parse_deepwiki.py:240-251 | `pre` writes a fence with its language, its children, the closing fence and a blank line |
| MarkdownLaws.FencedCodeLaw | backend/python/parse_deepwiki.py:228-251 | a `code` that is the only child of a `pre` is written without backticks inside the fence |
| MarkdownLaws.LeafLaw | backend/python/parse_deepwiki.py:291-300 | `hr`, `br` and `img` write their fixed text whatever their children and parent; `img` uses `alt` and `src`, each empty when missing |
| MarkdownLaws.DirectItemsAppend | backend/python/parse_deepwiki.py:265 | the `li` children of two runs of children are those of the first then those of the second |
| MarkdownLaws.NonItemIgnored | backend/python/parse_deepwiki.py:265 | a child that is not an `li` contributes no item, wherever it stands |
| MarkdownLaws.BulletItemsAreItems | backend/python/parse_deepwiki.py:255-260 | the `ul` walk writes one bullet per `li` child, in order |
| MarkdownLaws.NumberedItemsAreItems | backend/python/parse_deepwiki.py:265-269 | the `ol` walk writes one numbered entry per item, in order |
| MarkdownLaws.ListLaw | backend/python/parse_deepwiki.py:253-270 | `ul` and `ol` write their items' entries between two newlines and nothing for their other children |
| MarkdownLaws.ItemLaw | backend/python/parse_deepwiki.py:256-269 | an entry is `* ` or `i+1. `, the item's children, a newline; the number reads back as `i + 1` |
| MarkdownLaws.ListsDependOnItemsOnly | backend/python/parse_deepwiki.py:253-270 | two lists of one kind with the same `li` children write the same text |
| MarkdownLaws.QuoteLinesTerminated | backend/python/parse_deepwiki.py:284-288 | the quoted lines are written one per line |
| MarkdownLaws.BlockquoteLinesFlat | backend/python/parse_deepwiki.py:279-282 | no collected blockquote line holds a newline |
| MarkdownLaws.QuotedShape | backend/python/parse_deepwiki.py:284-288 | every quoted line starts with `>` and is a bare `>` exactly for a blank line |
| MarkdownLaws.QuoteLaw | backend/python/parse_deepwiki.py:277-289 | a `blockquote`'s output splits into its quoted lines and a blank line; each starts with `>` and is a bare `>` exactly for a blank line |
| MarkdownLaws.RowLinesIsConcat | backend/python/parse_deepwiki.py:334-338 | the body rows are written padded, one after another |
| MarkdownLaws.TableLaw | backend/python/parse_deepwiki.py:302-340 | no headers means no output; otherwise the header row, the separator, the padded body rows and a blank line |
| MarkdownLaws.HeaderlessTable | backend/python/parse_deepwiki.py:302-314 | a table writes nothing when no descendant is a `thead`, or when no descendant of its first `thead` is a `th` |
| MarkdownLaws.RowLineColumns | backend/python/parse_deepwiki.py:331 | a row of `n` cells that hold no bar character has `n + 1` bars |
| MarkdownLaws.SeparatorRow | backend/python/parse_deepwiki.py:332 | the separator of `m` headers has `m + 1` bars and `3m` dashes |
| MarkdownLaws.BodyRowColumns | backend/python/parse_deepwiki.py:334-338 | a body row has the header's column count when shorter and its own when longer |
| DeepWikiUrl.DropTrailingSlash | backend/python/parse_deepwiki.py:65-66 | at most one final `/` is removed, and only if there is one |
| DeepWikiUrl.GithubToDeepwikiUrl | backend/python/parse_deepwiki.py:58-69 | the result is `None` exactly for a missing or empty address |
| DeepWikiUrl.NoGithubLeft | backend/python/parse_deepwiki.py:69 | no `github.com` is left in a converted address |
| DeepWikiUrl.OtherAddressesTrimmed | backend/python/parse_deepwiki.py:63-69 | an address without `github.com` is only trimmed |
| DeepWikiUrl.BlankAddress | backend/python/parse_deepwiki.py:60-64 | an address of white space only converts to the empty address, not `None` |
| DeepWikiUrl.OneSlashOnly | backend/python/parse_deepwiki.py:65-66 | of two trailing slashes only one is removed |
| DeepWikiUrl.TrimmedAddress | backend/python/parse_deepwiki.py:64-66 | a trimmed address with one trailing `/` loses it |
| DeepWikiUrl.RepositoryAddress | backend/python/parse_deepwiki.py:58-69 | `https://github.com/<path>/` becomes `https://deepwiki.com/<path>` |
| Framing.FramedLines | backend/python/parse_deepwiki.py:380-387 | the printed block begins with the begin marker and ends with the end marker; `main` returns at lines 375-377 before reaching the warning branch |
| Framing.FramedOutput | backend/python/parse_deepwiki.py:380-387 | splitting the printed output at its newlines gives back exactly the printed lines and an empty tail |
| Framing.FramedLinesFlat | backend/python/parse_deepwiki.py:380-387 | no printed line of the frame holds a newline |
| Framing.ProgressLine | backend/python/parse_deepwiki.py:357-358 | the printed progress line `[stage] n%: message`; ProgressRoundTrip states how the server reads it |
| Framing.MatchProgress | backend/nodejs/server.js:117-119 | a match's percentage group is a non-empty run of digits |
| Framing.SpanTo | backend/nodejs/server.js:118 | a character-class run ends where the text or the class ends |
| Framing.MatchAtScan | backend/nodejs/server.js:118 | the lazy stage group stops at the first `]` after which the rest of the pattern matches |
| Framing.MatchBracketed | backend/nodejs/server.js:117-119 | a line opening with `[`, whose first `]` is followed by the rest of the pattern, matches with the bracketed text as stage |
| Framing.AfterCloseOf | backend/nodejs/server.js:118 | the text after `]` of a printed progress line gives its digits and message |
| Framing.ProgressRoundTrip | backend/python/parse_deepwiki.py:357-358 | a printed progress line is matched as the same stage, digits and message, and the digits parse back to the percentage |
| Framing.ReceiveRules | backend/nodejs/server.js:91-112 | a begin line starts a fresh collection; an end line stops it and joins the lines; other lines are collected exactly while collecting |
| Framing.Receive | backend/nodejs/server.js:89-112 | one line of the `data` handler's loop; ReceiveRules states its three cases |
| Framing.ReceiveAll | backend/nodejs/server.js:88-112 | the loop over the lines, in order; ReceiveAllAppend and CollectRun state how it composes |
| Framing.ProgressRules | backend/nodejs/server.js:108-120 | only a line read while not collecting and without a marker can be a progress report, and then exactly when it matches |
| Framing.CollectedHaveNoMarker | backend/nodejs/server.js:91-112 | collected lines never hold a marker |
| Framing.CollectRun | backend/nodejs/server.js:109-112 | while collecting, marker-free lines are appended in order |
| Framing.ReceiveAllAppend | backend/nodejs/server.js:88 | reading two runs of lines is reading the first, then the second |
| Framing.FramedRoundTrip | backend/python/parse_deepwiki.py:380-387 | the framed lines of a non-empty Markdown whose lines hold no marker give back that Markdown exactly, not collecting |
| Framing.ReceiveBegin | backend/nodejs/server.js:91-96 | the begin marker line starts an empty collection |
| Framing.ReceiveEnd | backend/nodejs/server.js:99-106 | the end marker line stops collecting and joins the lines |
| Framing.EmptyFramedGivesWarning | backend/python/parse_deepwiki.py:385-387 | an empty Markdown's frame would be read as the warning line; `main` never frames an empty Markdown, since it returns at lines 375-377 |
| Tasks.PrintedProgressRecorded | backend/nodejs/server.js:117-130 | a printed progress line gives the notice and the task update with the stage, percentage and message it was printed with |
| Tasks.NewTask | backend/nodejs/server.js:59-68 | a new task belongs to its socket, is running at the start stage at 0%, with no message, no error and its process not killed |
| Tasks.ProgressNoticeOf | backend/nodejs/server.js:120-131 | a matched line's notice carries its stage, its message and the percentage its digits give |
| Tasks.ApplyProgress | backend/nodejs/server.js:126-129 | a progress notice sets the task's stage, progress and message and nothing else; other notices change nothing |
| Tasks.Ended | backend/nodejs/server.js:154-159 | completed exactly for code 0, failed otherwise; the error is the standard error text exactly when not completed; nothing else changes |
| Tasks.Settle | backend/nodejs/server.js:161-223 | resolves exactly for code 0, non-blank Markdown and no write error, with the Markdown and a completed notice; otherwise a failed notice and a rejection with the stated reason |
| Tasks.Closed | backend/nodejs/server.js:154-176 | completed exactly for code 0, failed otherwise; the error is the settlement's note when there is one, else the standard error text exactly when not completed; nothing else changes |
| Tasks.BlankNeverResolves | backend/nodejs/server.js:166-176 | blank Markdown with code 0 is rejected and reported while the status stays completed |
| Tasks.WriteErrorKeepsCompleted | backend/nodejs/server.js:182-211 | a write error is rejected and reported while the status stays completed |
| Tasks.ResolvedMeansClean | backend/nodejs/server.js:153-223 | the closed task has no error exactly when the promise resolves, and then it is completed |
| Tasks.CancelTask | backend/nodejs/server.js:353-356 | cancel kills the process; a task not yet killed becomes cancelled, a killed one is unchanged; only status and the killed flag change |
| Tasks.CancelIdempotent | backend/nodejs/server.js:353-356 | cancelling twice is cancelling once |
| Tasks.CancelAfterClose | backend/nodejs/server.js:353-356 | a completed or failed task whose process was not killed is still marked cancelled |
| Tasks.CancelOverwrittenByClose | backend/nodejs/server.js:153-159 | a cancelled task whose process then closes with a `null` code ends failed |
| Tasks.DisconnectTask | backend/nodejs/server.js:382-387 | disconnect changes exactly the running, unkilled tasks of the socket, which become cancelled and killed |
| Tasks.DisconnectIdempotent | backend/nodejs/server.js:382-387 | a second disconnect changes nothing |
| Tasks.TaskTable.constructor | backend/nodejs/server.js:40 | `activeTasks` starts empty |
| Tasks.TaskTable.Start | backend/nodejs/server.js:59-68 | the task is stored running, at the start stage, at 0% |
| Tasks.TaskTable.Cancel | backend/nodejs/server.js:341-366 | an unknown task is not found and nothing changes; otherwise it is cancelled, and the client is told exactly when its process was not yet killed |
| Tasks.TaskTable.Disconnect | backend/nodejs/server.js:378-391 | every task gets the disconnect rule; no task is added or removed |
| ParseSession.SplitStream | backend/nodejs/server.js:83-85 | the complete lines, each with its newline, then the tail, make up the text; none holds a newline |
| ParseSession.StreamStep | backend/nodejs/server.js:80-85 | after a chunk, the handled lines plus the buffer are the whole received text |
| ParseSession.Report | backend/nodejs/server.js:116-139 | a line yields at most one notice, a progress notice, exactly when it is a progress report |
| ParseSession.LatestAppend | backend/nodejs/server.js:126-131 | applying a run of notices and then a second run that is empty or ends in a progress notice leaves the task as applying both runs together: that notice overwrites every field an earlier one set |
| ParseSession.Updated | backend/nodejs/server.js:126-131 | progress notices change only this task's entry and never the set of tasks |
| ParseSession.UpdatedAppend | backend/nodejs/server.js:126-131 | updating the table with a run of notices and then with a second run that is empty or ends in a progress notice is updating it with both runs together |
| ParseSession.QuietLines | backend/nodejs/server.js:116-120 | lines none of which is a progress report send no notice |
| ParseSession.FramedIsQuiet | backend/nodejs/server.js:108-112 | the framed Markdown sends no progress notice |
| ParseSession.FramedQuietUpTo | backend/nodejs/server.js:91-112 | no line of the frame is a progress report |
| ParseSession.BodyIsCollected | backend/nodejs/server.js:109-112 | inside the frame the receiver is collecting |
| ParseSession.StreamRoundTrip | backend/nodejs/server.js:78-106 | once complete lines and then the whole framed output have arrived, the buffer is empty, the handled lines are those lines and the frame, and the Markdown is recovered exactly |
| ParseSession.FramedStreamLines | backend/nodejs/server.js:78-87 | when complete lines followed by the framed output have all arrived, no partial line is left in the buffer and the lines split off are exactly those lines followed by the frame |
| ParseSession.Session.constructor | backend/nodejs/server.js:59-76 | a parse stores its task running and starts with an empty buffer, collection and error text |
| ParseSession.Session.OnData | backend/nodejs/server.js:78-144 | the chunk's complete lines are handled in order, the tail stays buffered, the notices are those of the progress lines, and only this task's entry is updated |
| ParseSession.Session.HandleLines | backend/nodejs/server.js:88-143 | the loop handles the lines in order, sending their notices |
| ParseSession.Session.HandleLine | backend/nodejs/server.js:89-142 | one line updates the state as `Receive` does and sends its notice when the task exists |
| ParseSession.Session.OnStderr | backend/nodejs/server.js:147-150 | standard error is appended to the error text and nothing else changes |
| ParseSession.Session.OnClose | backend/nodejs/server.js:153-223 | the task becomes `Closed(...)`, the notice and outcome are those of `Settle` |
| ParseSession.SessionRoundTrip | backend/nodejs/server.js:78-106 | a session that has received complete lines and then a framed Markdown has handled them all, has an empty buffer, is not collecting and holds the Markdown exactly |

## Left out

- Fetching the page over HTTP (`fetch_deepwiki_content`) and BeautifulSoup's HTML parsing are not modelled. The content element arrives as an already-parsed `HtmlTree.Node`.
- The `level` argument of `_process_element` is not modelled: it is passed down but no rule reads it.
- Logging and the progress callback calls inside the parser are not modelled, except for the printed progress line format. Neither are the argument checks and exit codes of `main`.
- Socket.IO delivery is not modelled. A notice is returned instead of emitted.
- The file system is not modelled. A failed `writeFileSync`/`statSync`, or a zero-size file, is the parameter `writeError` of `Session.OnClose`.
- Process spawning, random task identifiers and `Date.now()` are not modelled. The task identifier is a parameter, and `startTime`, `endTime`, `url` and `outputPath` are not kept.
- The Express routes other than cancel are not modelled: `/api/parse`'s reply, the status and Markdown reads, `/api/test-parse`, and the `SIGINT` handler.
- Standard output chunks are modelled as already-decoded text. A multi-byte character split across two chunks is not modelled.
- Tasks.ProgressNoticeOf: `parseInt` is exact on unbounded naturals. Digit strings above 2^53 lose precision in JavaScript, and that is not modelled.
- Tasks.CancelTask: `kill()` is taken to deliver its signal, so `killed` becomes true. Node leaves `killed` false for a process that has already exited.
- Task records have no `process` field, since a task is created with its process. The `task.process &&` guards therefore always hold.
- ParseSession.Session.OnClose: requires a task for this session to exist whenever the handler writes `task.error`. The source dereferences `task` there without a guard. Tasks are never removed, so this always holds.
- The `try`/`catch` around each line in the `data` handler is not modelled. Nothing in the modelled body throws.
- Console logging in the server is not modelled.
- Line endings are taken to be `"\n"`: `print` is modelled as writing `"\n"` after each line (`FramedOutput`). Where Python's text-mode standard output writes `"\r\n"`, the server, which splits on `"\n"` only, would keep a `"\r"` at the end of every collected line; that case is not modelled.
- The Markdown's own lines are assumed not to contain the begin or end markers (`NoMarker`) in the round-trip lemmas. A line that contains a marker restarts or ends the collection early, as `ReceiveRules` states.
- As written, the status stays `completed` when the Markdown is blank or the file write fails. It is not changed to `failed` (`BlankNeverResolves`, `WriteErrorKeepsCompleted`).
- Cancel marks a task `cancelled` even after it has completed (`CancelAfterClose`).
- A cancelled task whose process then closes is marked `failed` (`CancelOverwrittenByClose`).
- The iteration order of `activeTasks` in the disconnect handler does not matter: each entry is updated on its own.
