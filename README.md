# beautiful_output, modelled in Dafny

`beautiful_output` is an Ansible stdout callback plugin. The runner calls its
`v2_*` event handlers. The plugin prints three kinds of output:

- a banner when the first play starts;
- task titles, held back in a buffer until it is clear they are worth showing;
- one line per result or loop item, with a recap table of per-host counters at the end.

Every message also goes to a log, after one pass of a filter that removes terminal escape sequences.

This project models that core:

- **Column helpers** (module `Columns`): `stringtruncate` and `dictsum`.
- **Pure rules** (module `Rules`):
  - the verbosity gate and `changed_artifacts`;
  - how a task name becomes a title, and the title's decision score;
  - `get_chainned_value`;
  - tag collection and filtering, and the layout of the tag line;
  - the choice and order of the sections printed under a result;
  - the rewrite of a result that carries an exception.
- **The escape filter** (module `Ansi`): the `ansi_escape` regex as a deterministic scanner.
- **The stateful callback object** (module `Callback`): class `CallbackModule`.
  - Fields: the screen output, the title buffer, the "an item was shown" flag, the current play and host, and the delegated variables.
  - Methods: one per event handler.
  - Result objects are class `TaskResult`, whose `fields` dictionary the handlers rewrite in place.

Three support modules model the Python values the plugin handles:

- `PyStr`: the `str` methods it uses;
- `PyValue`: JSON-like values, and dictionaries in insertion order;
- `Wrappers`: `Option`.

All source paths below are in `callback_plugins/beautiful_output.py`.

Three behaviours of the code are modelled as they are written:

- A right-justified cell that is too long comes out `len - width + 10` wide, which in the recap's 7-wide columns is wider than the column.
- Only the first play ever started gets a banner, since `_current_play` is never cleared (lines 493-495). The docstring at lines 477-481 speaks of skipping only a repeated play.
- After a tag wraps onto a new line, the next tag follows it on that line with a two-space lead.
- An `include` task leaves an earlier buffered title in the buffer.

## Model

| member | source | states |
|---|---|---|
| Columns.StringTruncate | callback_plugins/beautiful_output.py:188-240 | a non-falsy cell that fits is exactly `width` wide; a left-justified cell is exactly `width` wide whenever the column can hold the placeholder |
| Columns.TruncateFalsy | callback_plugins/beautiful_output.py:219-220 | `""` or `0` becomes a run of the fill character exactly as wide as the column |
| Columns.TruncateFits | callback_plugins/beautiful_output.py:222-233 | a text that fits, or any text when the width is 0, keeps all its characters: on the left for strings, on the right for integers, with spaces filling the rest |
| Columns.TruncateLeft | callback_plugins/beautiful_output.py:228-238 | an over-long left-justified text keeps its first `width - len(placeholder)` characters plus the placeholder, exactly `width` characters |
| Columns.TruncateRight | callback_plugins/beautiful_output.py:228-238 | an over-long right-justified text is the placeholder followed by the text from index `width - len(placeholder)` on, so it is `len(text) - width + 2*len(placeholder)` wide |
| Columns.TruncateRightExample | callback_plugins/beautiful_output.py:236-237 | the count 12345678 in a 7-wide column comes out as `[...]345678`, 11 characters wide |
| Columns.DictSum | callback_plugins/beautiful_output.py:243-279 | keys present before become old plus new; keys only in `values` get their value; other keys are unchanged and none is removed; the result equals `Merged` |
| Columns.MergedExample | callback_plugins/beautiful_output.py:260-273 | the docstring's three calls from `{}` end with 16, 32 and 48 |
| Columns.FoldTotalsIsSum | callback_plugins/beautiful_output.py:815-838 | after folding `dictsum` over the hosts, each total is its start value plus the per-key sum of the hosts' counters; a key is present exactly when it was at the start or some host has it |
| Columns.TotalsAreColumnSums | callback_plugins/beautiful_output.py:815-838 | every column of the Totals row is the sum of that column over all hosts |
| PyStr.SortStrings | callback_plugins/beautiful_output.py:815 | `sorted` of a set of strings: strictly ascending in code-point order and holds exactly the set's elements; it is the one sorted list of them |
| Ansi.MatchLengthSound | callback_plugins/beautiful_output.py:138-147 | what the scanner removes at a position is a match of the pattern ESC, Fe byte, parameter bytes, intermediate bytes, final byte |
| Ansi.MatchLengthComplete | callback_plugins/beautiful_output.py:138-147 | whenever a prefix matches the pattern, the scanner removes exactly that prefix, so the regex's match is unique |
| Ansi.StripWithoutEscape | callback_plugins/beautiful_output.py:386-389 | a message without ESC reaches the log unchanged |
| Ansi.StripNeverLonger | callback_plugins/beautiful_output.py:386-389 | the log copy is never longer than the screen copy |
| Ansi.StripKeepsOnlyInputCharacters | callback_plugins/beautiful_output.py:386-389 | every character of the log copy occurs in the message |
| Ansi.StripPlainPrefix | callback_plugins/beautiful_output.py:386-389 | the text before the first ESC passes into the log untouched |
| Ansi.StripLeadingSequence | callback_plugins/beautiful_output.py:138-147 | an escape sequence at the front is dropped, whatever follows it |
| Ansi.StripAroundSequences | callback_plugins/beautiful_output.py:386-389 | text, sequence, text, sequence: only the two texts remain |
| Ansi.StripCanLeaveAnEscapeSequence | callback_plugins/beautiful_output.py:138-147 | one pass over ESC ESC `[m[m` leaves ESC `[m`, itself an escape sequence; the log is not guaranteed escape-free |
| Rules.VerboseWithoutResult | callback_plugins/beautiful_output.py:865-883 | without a result, the gate is exactly "display verbosity >= level" |
| Rules.VerboseFlags | callback_plugins/beautiful_output.py:880-883 | `_ansible_verbose_override` closes every level; otherwise `_ansible_verbose_always` opens every level |
| Rules.VerboseMonotone | callback_plugins/beautiful_output.py:880-883 | passing a level implies passing every lower level |
| Rules.ChangedArtifacts | callback_plugins/beautiful_output.py:1392-1419 | a truthy `changed` key gives ("changed", changed colour); otherwise the given status and colour come back |
| Rules.ChangedArtifactsIgnoreException | callback_plugins/beautiful_output.py:624-625 | rewriting an exception before `changed_artifacts` runs never changes whether the result is reported "changed" |
| Rules.TaskDisplayNameShape | callback_plugins/beautiful_output.py:989-1003 | the title is the last `" : "` part of the stripped name, a suffix of it without `" : "`; there is no title exactly when that part starts with "include" |
| Rules.TaskDisplayNameOfRoleTask | callback_plugins/beautiful_output.py:989-1003 | "role : task", with no colon in either part, is titled "task" |
| Rules.ScoreValues | callback_plugins/beautiful_output.py:1199-1257 | the decision score is always one of 0.0, 0.5 and 1.0 |
| Rules.GetChainedValueEmpty | callback_plugins/beautiful_output.py:1453-1466 | an empty key chain gives `None` |
| Rules.GetChainedValueMissing | callback_plugins/beautiful_output.py:1457-1466 | a key missing from a dictionary gives `None`, whatever keys follow |
| Rules.GetChainedValueFollows | callback_plugins/beautiful_output.py:1422-1466 | a chain that runs through dictionaries all the way returns exactly the value reached by subscripting key by key |
| Rules.FollowPathAppend | callback_plugins/beautiful_output.py:1457-1460 | following a key chain in two steps is following the joined chain |
| Rules.GetChainedValueExample | callback_plugins/beautiful_output.py:1428-1439 | the docstring example, three keys deep, returns "Found It!" |
| Rules.CollectedTags | callback_plugins/beautiful_output.py:932-939 | a tag is collected exactly when some task carries it |
| Rules.FilterTagsCases | callback_plugins/beautiful_output.py:939-945 | no request or exactly {"all"} keeps every tag; an empty request raises; any other request keeps the intersection; the result is always a subset of the tags |
| Rules.FilterTagsAllWithOthers | callback_plugins/beautiful_output.py:939-945 | "all" next to another tag filters like an ordinary tag |
| Rules.LayoutSteps | callback_plugins/beautiful_output.py:964-985 | for each tag of the line: a leading tag gets "  " and resets the length; otherwise it wraps exactly when the running length plus the tag plus 5 exceeds the width |
| Rules.TagStripLines | callback_plugins/beautiful_output.py:964-985 | the first tag leads; a tag that continues a line keeps the counted length `total_len` (not the printed width) within the width; a wrapped tag is always followed by a leading tag |
| Rules.TagStripWrapQuirk | callback_plugins/beautiful_output.py:969-985 | with width 10, after "bbbbbbbbbb" wraps, "cccccccccc" is put on its line after "  " |
| Rules.SectionsNeedVerbosity | callback_plugins/beautiful_output.py:1078-1094 | a result that fails the level-1 gate shows no sections |
| Rules.SessionSectionShown | callback_plugins/beautiful_output.py:1078-1086 | a key of `_session_order` is shown under its title exactly when the result holds it with a truthy value and the key's level passes the gate |
| Rules.SessionTitlesDistinct | callback_plugins/beautiful_output.py:106-132 | the keys of `_session_order` have pairwise different titles |
| Rules.ExtraSectionShown | callback_plugins/beautiful_output.py:1088-1094 | every other truthy key is shown under its rewritten title from level 2 on; conversely every extra section has a truthy body, passed the level-2 gate, and comes from an entry whose key is outside `_session_title`, under that key's rewritten title |
| Rules.SessionSectionsComeFirst | callback_plugins/beautiful_output.py:1078-1094 | the `_session_order` sections come first; every section after them comes from an entry outside `_session_title`, so no session key is shown again as an extra section |
| Rules.HandleExceptionEffect | callback_plugins/beautiful_output.py:840-863 | a result without `exception` is left alone; otherwise `use_stderr` and a text `stderr` are set, `exception` is removed only at verbosity 3 when there is a `module_stderr`, and every other key keeps its value |
| Rules.HandleExceptionBrief | callback_plugins/beautiful_output.py:853-857 | below verbosity 3, `stderr` ends with the last line of the stripped traceback, which has no line break |
| Rules.HandleExceptionTraceback | callback_plugins/beautiful_output.py:858-863 | at verbosity 3 with a `module_stderr`, `stderr` is the full traceback when the two differ and only the intro when they are equal |
| Rules.Symbol | callback_plugins/beautiful_output.py:153-172 | a key of the symbol table gives its glyph, any other key gives ":key:"; the result starts with ':' exactly for unknown keys |
| Rules.ResultHead | callback_plugins/beautiful_output.py:1071-1076 | the head is `indent` spaces, the symbol and a blank if any, and always ends with the host then the upper-cased status in brackets; its length adds up accordingly |
| Rules.HostString | callback_plugins/beautiful_output.py:1023-1040 | the prefixed host name always leads; the string is longer exactly when a delegated host is shown, and then ends with the prefixed delegate |
| Rules.ItemLabel | callback_plugins/beautiful_output.py:1117-1123 | a dictionary item is labelled by its `name`, else by its `path`; any other item, or a dictionary with neither, labels itself |
| Columns.RowText | callback_plugins/beautiful_output.py:1185-1197 | a row starts with a blank and is as long as its cells plus one blank per cell |
| Columns.SeparatorText | callback_plugins/beautiful_output.py:1139-1156 | the separator is 79 columns of the rule character and blanks only |
| Columns.HeaderText | callback_plugins/beautiful_output.py:804-812 | the header row is 79 columns, as wide as the separator |
| Columns.CountsRowText | callback_plugins/beautiful_output.py:1158-1197 | a counts row starts with a blank and is 79 columns whenever the name fits 30 columns and each counter fits 7 |
| Columns.CellWidth | callback_plugins/beautiful_output.py:188-240 | a cell whose text fits its column fills the column exactly, falsy or not |
| Columns.RowWidth | callback_plugins/beautiful_output.py:1185-1197 | a row of one 30-wide and six 7-wide cells is 79 columns |
| Callback.PlayTitleWidth | callback_plugins/beautiful_output.py:497-503 | an unnamed play's title is "[PLAY]" between 37 dashes on each side; a named one is 91 wide, or 8 more than the name when the name is too long |
| Callback.PlayBannerShape | callback_plugins/beautiful_output.py:497-509 | the banner has one line without hosts and hosts + 3 lines with them, and the i-th host line is "  - host" |
| Callback.TagStripLogCopy | callback_plugins/beautiful_output.py:964-987 | the log copy of the tag line is the line with each badge's highlight codes removed |
| Callback.IncludeTaskKeepsBuffer | callback_plugins/beautiful_output.py:1284-1287 | an include task shows nothing, raises nothing and leaves the buffered title as it was |
| Callback.TitleShownOnce | callback_plugins/beautiful_output.py:1284-1305 | at most one title is shown; when it is shown it is the buffered title and the buffer is empty afterwards; a raising score shows nothing |
| Callback.ConditionDecidesTitle | callback_plugins/beautiful_output.py:1227-1298 | a `when` that is false for some host drops the title unless skipped hosts are displayed; one that holds for every host shows it at once |
| Callback.UndecidedTitleWaits | callback_plugins/beautiful_output.py:1227-1298 | a task with no `when` that is not a debug task keeps its title in the buffer |
| Callback.CallbackModule.LogLines | callback_plugins/beautiful_output.py:368-389 | the log holds one entry per screen line, in the same order: the line after one pass of the escape filter, without colour |
| Callback.CallbackModule.constructor | callback_plugins/beautiful_output.py:360-366 | no output, no buffered title, no play or host, no delegated variables, and no item shown (the stored title, which the source first sets at a task start, starts as `None`) |
| Callback.CallbackModule.Display | callback_plugins/beautiful_output.py:368-389 | appends the line to the screen, and its log copy to the log |
| Callback.CallbackModule.LogKeepsPlainText | callback_plugins/beautiful_output.py:386-389 | a plain line without ESC is logged with its text unchanged |
| Callback.CallbackModule.LogNeverLonger | callback_plugins/beautiful_output.py:386-389 | every logged line has the kind of its screen line, no colour, and texts no longer than those shown; a result's sections and an item's label are logged as shown |
| Callback.CallbackModule.FlushDisplayBuffer | callback_plugins/beautiful_output.py:1300-1305 | shows a non-empty buffered title once and clears it; afterwards nothing is pending, so a second flush shows nothing |
| Callback.CallbackModule.OnPlayStart | callback_plugins/beautiful_output.py:473-509 | records the play; prints the banner only when no play was recorded before |
| Callback.CallbackModule.DisplayHosts | callback_plugins/beautiful_output.py:505-509 | prints the framed host list, one line per host |
| Callback.CallbackModule.OnRunnerStart | callback_plugins/beautiful_output.py:582-598 | records the current host |
| Callback.CallbackModule.GetTaskDisplayName | callback_plugins/beautiful_output.py:989-1003 | the stored title equals `TaskDisplayName` of its task's name |
| Callback.CallbackModule.DecisionScore | callback_plugins/beautiful_output.py:1199-1257 | the loop that stops at the first false host gives exactly `ScoreOf`: 0.0, 0.5 or 1.0 by the hosts' outcomes; for a debug task, the verbosity gate; `None` when `int()` raises |
| Callback.CallbackModule.DisplayTaskName | callback_plugins/beautiful_output.py:1259-1298 | resets the item flag and stores the title; the screen and buffer change exactly as `TitleDecision` says |
| Callback.CallbackModule.BufferTitle | callback_plugins/beautiful_output.py:1287-1298 | buffers the title, with " (via handler)..." for handlers, then shows, drops or keeps it by the score |
| Callback.CallbackModule.ApplyScore | callback_plugins/beautiful_output.py:1295-1298 | a score of 1.0 or more (or displaying skipped hosts) flushes; below 0.1 drops the title; otherwise the title stays buffered |
| Callback.CallbackModule.OnTaskStart | callback_plugins/beautiful_output.py:511-528 | `_display_task_name` for an ordinary task |
| Callback.CallbackModule.OnHandlerTaskStart | callback_plugins/beautiful_output.py:530-547 | `_display_task_name` for a handler task |
| Callback.CallbackModule.HandleException | callback_plugins/beautiful_output.py:840-863 | rewrites the result's fields in place to `HandledResult`, with the verbosity-3 gate evaluated without a result |
| Callback.CallbackModule.PreprocessResult | callback_plugins/beautiful_output.py:1018-1020 | stores the delegated variables, flushes the title and rewrites an exception |
| Callback.CallbackModule.OnOk | callback_plugins/beautiful_output.py:621-627 | changes nothing once an item was shown; otherwise shows the title, then the result as "ok" or "changed"; the buffer is emptied exactly when it held a title to show |
| Callback.CallbackModule.OnFailed | callback_plugins/beautiful_output.py:673-680 | changes nothing once an item was shown; otherwise shows the title, then the result as "failed", or "ignored" with `ignore_errors`; the buffer is emptied exactly when it held a title to show |
| Callback.CallbackModule.OnSkipped | callback_plugins/beautiful_output.py:629-653 | changes nothing unless skipped hosts are displayed; then shows the title, then the result as "skipped"; the buffer is emptied exactly when it held a title to show |
| Callback.CallbackModule.OnUnreachable | callback_plugins/beautiful_output.py:682-702 | shows the title, then the result as "unreachable", with the previous result's delegated variables; the buffer is emptied exactly when it held a title to show |
| Callback.CallbackModule.ProcessItemResultOutput | callback_plugins/beautiful_output.py:1098-1137 | the "Items:" header appears only before the first item of a task, and the item flag is set afterwards |
| Callback.CallbackModule.OnItemOk | callback_plugins/beautiful_output.py:704-729 | title, header on the first item, then the item as "ok" or "changed"; the item flag is set; the buffer is emptied exactly when it held a title to show |
| Callback.CallbackModule.OnItemSkipped | callback_plugins/beautiful_output.py:731-756 | changes nothing unless skipped hosts are displayed; then title, header on the first item, then the item as "skipped"; the buffer is emptied exactly when it held a title to show |
| Callback.CallbackModule.OnItemFailed | callback_plugins/beautiful_output.py:758-780 | title, header on the first item, then the item as "failed"; the result is not preprocessed; the buffer is emptied exactly when it held a title to show |
| Callback.CallbackModule.OnStats | callback_plugins/beautiful_output.py:782-838 | prints the rule and header, one row per host in sorted order, the rule, and a Totals row whose columns are the column sums |
| Callback.CallbackModule.DisplayHostRows | callback_plugins/beautiful_output.py:815-827 | the loop prints one row per host in order and returns the `dictsum` fold of their counters |
| Callback.CallbackModule.DisplayStatsHead | callback_plugins/beautiful_output.py:794-813 | prints the 80-dash rule, the column titles and the `=` separator, in that order |
| Callback.CallbackModule.DisplayHostRow | callback_plugins/beautiful_output.py:819-827 | after the rows of the hosts before it, prints the counts row of one host |
| Callback.CallbackModule.DisplayTotals | callback_plugins/beautiful_output.py:829-838 | prints the `-` separator and the Totals row of the summed counters |
| Callback.CallbackModule.GetTags | callback_plugins/beautiful_output.py:916-945 | the sorted, filtered union of all tasks' tags, or `None` when an empty request raises |
| Callback.CallbackModule.DisplayTagStrip | callback_plugins/beautiful_output.py:947-987 | nothing when collecting the tags raises; otherwise a blank line then the tag line of the sorted tags |
| Callback.CallbackModule.TagLine | callback_plugins/beautiful_output.py:964-985 | the loop over `total_len` and `first_item` builds exactly the line `Layout` and `Render` describe |

## Left out

- YAML and JSON are left out: `dump_value`, `try_parse_string` and `reindent_session` (with `textwrap.fill`). A section is kept as a title and a value, not as rendered text.
- Rules.ItemLabel: for a dictionary item with neither `name` nor `path`, the source prints `JSON: "…"` around `stringtruncate(json.dumps(item, separators=(",", ":")), width=36)` (lines 1127-1132). The model keeps the dictionary itself as the label.
- Colouring is left out: `stringc` is the identity, and a line carries its colour as a tag. A named play's title is therefore centred on 91 columns before colour codes, and is `|name| + 8` wide when the name is longer; the source's `center(91)` also counts the codes around the name.
- Numbers in the recap use the locale-aware `n` format; they are modelled as plain decimal. Locale digit grouping is left out.
- `_display_cli_arguments`, `v2_playbook_on_start`, `v2_runner_retry` and `v2_playbook_on_no_hosts_*` are not part of this model.
- The watchdog bus is left out; it is inter-process signalling.
- `_get_item_label` belongs to Ansible's base class. Its value is given as `TaskResult.itemLabel`.
- In `_get_tags`, Ansible's play, block and task traversal is given as a sequence of per-task tag lists.
- In the decision score, the hostvars lookup and `evaluate_conditional` are given as one outcome per host: holds, fails or raises.
- The Display sinks are appends to `screen`; the log is derived from it by `LogLines`. Writing to stderr and the `outlines` buffer are left out.
- The exceptions a handler lets escape become `None` results or a `raised` flag: `int()` of a debug `verbosity`, and `StopIteration` in `_get_tags`.
- `upper`, `capitalize` and `sorted` follow ASCII case only and code-point order. Unicode case mapping is left out.
- `int()` accepts surrounding whitespace, a sign and ASCII digits. Underscores and non-ASCII digits are left out.
- Rules.HostString: a truthy delegated-variables value appends the arrow and `ansible_host` only when that entry is a string. The source raises `KeyError` when it is missing, and formats any other value with `str`.
- Callback.CallbackModule.LogLines: only the text around a result's sections and an item's label is stripped of escape sequences. The section bodies are kept as values.
- Callback.CallbackModule.OnPlayStart: a play is "set" once one was recorded. Python's truthiness of a play object is taken to be always true.
- The log copy is not guaranteed free of escape sequences: one pass of the filter can expose a new one (`Ansi.StripCanLeaveAnEscapeSequence`).
- Rules.ExceptionIsText: the `exception` entry of a result is taken to be text, as Ansible's executor sets it. Any other value makes the source raise; the handlers that rewrite an exception require this.
- `_handle_warnings` (called at line 1021) belongs to Ansible's base class. With action warnings on, it prints and deletes the `warnings` and `deprecations` entries before the result is rendered. The model keeps them, so from verbosity 2 on `Rules.ExtraSections` would show them as sections where the source prints them as warnings instead.
- Rules.Symbol: the table holds the glyph literals of lines 90-101 exactly as the file spells them. The file stores each UTF-8 glyph decoded once more as code page 1252, so the strings are these multi-character sequences, not the single intended glyphs.
