# GLShaderValidator diagnostic pipeline in Dafny

GLShaderValidator is a Sublime Text plugin. It sends the text of a GLSL/ESSL
view to ANGLE's `essl_to_glsl` compiler. It reads back the lines the compiler
prints and outlines one region of the view for each diagnostic. This project
models the pure core of that plugin, in the terms of `GLShaderValidator.py`:

- **Output-line loop** of `ANGLECommandLine.validate_contents` (`Parser`).
  Each decoded output line goes through these steps, in order:
  1. the `str()` conversion, which raises on any non-ASCII character under Python 2;
  2. the case-insensitive `permission denied` check, which returns `[]` at once;
  3. the `^####` comment check;
  4. the compiler-output pattern `^...*?:(\d+):0: ([^:]*): (.*)`;
  5. the lookup `fileLines[errorLine]`. Python's list indexing applies here: line `0` gives index `-1`, which is the last line, and any other index outside the list raises.
- **The pattern** as an explicit matcher (`ErrorPattern`). `IsMatchAt` states which readings the pattern allows. `Match` picks the one `re.match` returns: the lazy prefix stops at the first `:` that allows a reading.
- **Conversion loop** of `ExampleThread.callback` (`Resolver`). A non-empty token is searched for literally (`view.find` with `LITERAL`), starting at the beginning of the cited line. The first occurrence wins, even on a later line. An empty token, or a search that finds nothing, keeps the line's region. The message is always the description.
- **One pass end to end** (`Pipeline`): parse, then convert, then report what reaches the editor. That is either a list of errors, an empty list after the permission dialog, or nothing because the thread died with an exception.
- **Gatekeeping checks** (`Settings`): the `apply_settings` merge, `is_glsl_or_essl`, `is_valid_file_ending`, and the order in which the worker's constructor applies them.
- **The editor document** (`Document`): its text, the regions `view.lines` reports, and `view.find`. These are modelled on the text, as Sublime documents them.

Regular-expression behaviour is that of Python 2's `re` without the UNICODE
flag:
- `\d` is `[0-9]`;
- `IGNORECASE` folds only the ASCII letters;
- `.` matches anything but a line break;
- `$` also matches just before a final line break.

Behaviours of the code worth noting:
- The token is kept exactly as captured, spaces included (`TokenNotTrimmed`).
- A diagnostic whose line number is past the end of the document is not dropped. The lookup raises `IndexError`, the worker thread dies, and no errors are delivered (`OutOfRangeRaises`).
- Line `0` is not rejected: index `-1` wraps to the last line (`CitedLineZeroWraps`).
- A permission failure shows a dialog and returns `[]`, discarding the errors already collected (`DeniedLineAborts`). The check runs before the comment check, so a `####` line can trigger it.
- In `shader.frag:5:0: error: 'foo' : undeclared identifier` the token is `error` and the description is `'foo' : undeclared identifier` (`TokenIsFirstField`).
- A token that occurs once in the text keeps the line region when that occurrence lies before the cited line, because the search only looks forward (`UniqueTokenResolves`).

## Model

| member | source | states |
|---|---|---|
| Text.ContainsFolded | GLShaderValidator.py:92 | true exactly when the lower-cased literal occurs somewhere in the text with ASCII-only case folding, which is the case-insensitive `re.search` for a literal |
| Text.ContainsFoldedFrom | GLShaderValidator.py:92 | the scan from position `i` finds the folded literal exactly when it occurs at some position from `i` on |
| Text.SkipWhile | GLShaderValidator.py:39 | a greedy run (`\d+`, `[^:]*`, `.*`): everything from `i` to the result has the property, and the character at the result, if any, does not |
| Text.FirstFrom | GLShaderValidator.py:307 | the least position in a range with a property, or none when no position in the range has it |
| Document.LinesFrom | GLShaderValidator.py:284 | the lines from an offset tile the rest of the text: consecutive, separated by single line breaks, none containing a break, the last ending with the text |
| Document.LineSpans | GLShaderValidator.py:284 | `view.lines` over the whole view: the lines tile the text from offset 0, and every region is exactly one line, with a break or the text's edge on each side |
| Document.Find | GLShaderValidator.py:307 | `view.find` with `LITERAL`: the first occurrence at or after `start`, with the token's length; none exactly when no occurrence begins at or after `start` |
| ErrorPattern.TryAtSound | GLShaderValidator.py:39 | whatever the deterministic scan after the prefix returns is a reading of the pattern at that offset |
| ErrorPattern.TryAtFinds | GLShaderValidator.py:39 | every reading of the pattern at an offset is the one the scan returns there |
| ErrorPattern.ReadingIsUnique | GLShaderValidator.py:39 | two readings whose prefixes end at the same offset are the same, so nothing can be backtracked into once the prefix is fixed |
| ErrorPattern.MatchFrom | GLShaderValidator.py:39 | the search from offset `p` returns a reading starting at or after `p`, and finds one whenever one exists, never later than any other |
| ErrorPattern.Match | GLShaderValidator.py:100 | `errorPattern.match(e)`: a result is a reading of the pattern, and when any reading exists, the result is the one with the shortest lazy prefix |
| ErrorPattern.MatchIs | GLShaderValidator.py:39 | a reading with no `:` between offset 2 and its prefix end is the match |
| ErrorPattern.LeftmostReadingIsMatch | GLShaderValidator.py:39 | the reading with the shortest prefix is the match |
| ErrorPattern.FormatIsMatchAt | GLShaderValidator.py:39 | a line laid out as `<prefix>:<digits>:0: <token>: <description>` is a reading at the end of its prefix |
| ErrorPattern.FormatThenMatch | GLShaderValidator.py:39 | parsing a formatted line gives back its line number, token and description, when the prefix has no line break and no `:` past offset 1, the token no `:` and the description no line break |
| ErrorPattern.FormatLineThenMatch | GLShaderValidator.py:39 | the same round trip for the line as `readlines()` delivers it, with its trailing line break, which `.*` leaves outside the description |
| Parser.StepLine | GLShaderValidator.py:87-113 | one output line: a non-ASCII line raises the encoding error and an ASCII line never does; an ASCII line aborts exactly when it contains "permission denied" in any case; it is skipped exactly when it has neither and starts with `####` or the pattern does not match; an emitted error carries the match's captures, index `line number - 1`, and the region of the cited line (`fileLines[line number - 1]` with Python indexing); an index error carries that same cited index and the line count, and is raised only when the lookup fails |
| Parser.ParseOutput | GLShaderValidator.py:85-115 | the whole loop: a completed parse has at most one error per line; an abort comes from a line containing "permission denied"; an encoding failure names a non-ASCII output line; an index error names an index the document's lines do not have |
| Parser.ValidateContents | GLShaderValidator.py:85-115 | the loop as written, with early returns, equals the line-by-line reference definition `ParseOutput` |
| Parser.ParseAppend | GLShaderValidator.py:85-113 | parsing concatenated output is parsing the first part and then the second: each line is handled on its own, and the first raise or abort ends everything |
| Parser.DeniedLineAborts | GLShaderValidator.py:92-94 | an ASCII line mentioning "permission denied" in any case, after lines that completed, makes the call return `[]`, whatever follows |
| Parser.CommentLineIgnored | GLShaderValidator.py:97 | a line starting with `####` with no permission failure contributes nothing |
| Parser.RejectedLineIgnored | GLShaderValidator.py:100-104 | a line the pattern cannot read contributes nothing |
| Parser.AcceptedLineEmits | GLShaderValidator.py:105-113 | an accepted line citing line `n` in range yields one error: index `n - 1`, the untrimmed token and description, and the region of line `n` |
| Parser.CitedLineZeroWraps | GLShaderValidator.py:105-108 | line number 0 yields index `-1` and the region of the document's last line |
| Parser.CapturedInRange | GLShaderValidator.py:105-113 | a line whose step is the lookup of captures citing an index inside the document parses as exactly one error located at that line's region |
| Parser.OutOfRangeRaises | GLShaderValidator.py:108 | a line number past the document's end, or any line number in a document without lines, raises the index error once reached, whatever follows |
| Parser.CompletedSawNoFailure | GLShaderValidator.py:85-115 | a completed parse read only ASCII lines without a permission failure, and yields at most one error per line |
| Parser.DuplicatesKept | GLShaderValidator.py:111-113 | a line printed twice yields its error twice; nothing is deduplicated |
| Parser.CompletedLocationsAreLines | GLShaderValidator.py:108 | every parsed error's location is one of the document's line regions |
| Resolver.Resolve | GLShaderValidator.py:302-310 | the message is the description; an empty token keeps the line region; a non-empty token moves to its first occurrence at or after the line's start, or keeps the line region when there is none; regions stay inside the text |
| Resolver.Callback | GLShaderValidator.py:300-310 | the loop produces one error per intermediate error, in order, each the conversion of its own intermediate error; so it equals `ResolveAll`, the conversion `Validate` delivers |
| Resolver.UniqueTokenResolves | GLShaderValidator.py:306-309 | a token that occurs once resolves to that occurrence when it is at or after the line's start, and to the line region when it is before |
| Pipeline.Validate | GLShaderValidator.py:289-310 | one pass: nothing is delivered exactly when the parse raised; a parse that ended in the permission abort delivers exactly the empty list with the notice, and only such a parse does; the notice comes from a line containing "permission denied"; at most one error per output line; every delivered region lies inside the text |
| Pipeline.DeliveredErrorsResolveParsed | GLShaderValidator.py:293-314 | after a completed parse the delivered errors are the parsed ones converted in order, each inside the text and carrying its description |
| Pipeline.EmptyTokenMarksCitedLine | GLShaderValidator.py:306 | an accepted line with an empty token outlines exactly the cited line |
| Pipeline.TokenMarksFirstOccurrence | GLShaderValidator.py:306-310 | an accepted line with a token outlines the token's first occurrence from the cited line on, or the cited line when there is none |
| Scenarios.TokenIsFirstField | GLShaderValidator.py:39 | in `shader.frag:5:0: error: 'foo' : undeclared identifier` the token is `error` and the description keeps the quoted identifier |
| Scenarios.TokenNotTrimmed | GLShaderValidator.py:106 | spaces around the token are kept |
| Scenarios.DriveLetterSkipped | GLShaderValidator.py:39 | a `:` at offset 1, as in a Windows drive letter, cannot end the prefix |
| Scenarios.NonZeroColumnRejected | GLShaderValidator.py:39 | a diagnostic of the same shape that cites column 1 instead of 0 is not read at all |
| Settings.SetDefaults | GLShaderValidator.py:158-168 | the merge loop writes each default key with the user's value, or the default when the user has none, and leaves other keys alone |
| Settings.ApplySettings | GLShaderValidator.py:153-168 | a configured view is unchanged; otherwise the view gains the default keys and the configured mark, each default key takes the user's value or the default, and no other key changes |
| Settings.SettingsFrozenOnceApplied | GLShaderValidator.py:153 | applying settings a second time, with any user settings, changes nothing |
| Settings.IsGlslOrEssl | GLShaderValidator.py:192-198 | true exactly when a syntax is set and contains `glsl` or `essl` in any ASCII letter case |
| Settings.IsValidFileEnding | GLShaderValidator.py:200-205 | an unsaved view passes; a named one passes exactly when the name ends in one of the six endings, optionally followed by one line break |
| Settings.SearchEndingIsSuffix | GLShaderValidator.py:204 | the `$`-anchored alternation search succeeds exactly when the name ends with an alternative, or with one followed by a final line break |
| Settings.DisabledOnlyByUser | GLShaderValidator.py:255-267 | after the first merge the run is disabled exactly when the user's `glsv_enabled` equals 0, that is `0` or `false` |
| Settings.GateRun | GLShaderValidator.py:263-281 | the constructor's gates in order: disabled exactly when `glsv_enabled` equals 0; otherwise stopped as not a shader exactly when the syntax names neither GLSL nor ESSL; a bad file name carries the status text; the compiler runs exactly when not disabled, the syntax names GLSL or ESSL, and the file name passes |

## Left out

- Running the compiler: `subprocess.Popen`, writing the content, `readlines`, UTF-8 decoding. The compiler's output is a parameter: a sequence of already decoded lines. A line that fails to decode is not modelled.
- `ensure_script_permissions` (`os.chmod`), which is file-system I/O.
- Threads, `sublime.set_timeout` and the shared `cmd.errors` slot. The model gives the result of one pass. There is no staleness check in the code: with overlapping passes, the last callback to run overwrites the errors, whatever text it was computed for; that interleaving is not modelled.
- Resolver.Resolve: assumes the view's text is unchanged between `view.lines` and `view.find`. `fileLines` is taken in the worker's constructor (line 284), but `view.find` runs in `callback` (line 307) on the view as it is then, and every keystroke starts a new pass (lines 233-237). A stale line region can start the search at the wrong offset or lie past the end of the edited text; the model resolves against the text the regions were cut from.
- Pipeline.Validate: the same assumption; its promise that every delivered region lies inside the text holds only when the view did not change while the compiler ran.
- Pipeline.DeliveredErrorsResolveParsed: the same assumption, for the same reason.
- UI glue: `show_errors`, `clear_errors`, status messages, `on_selection_modified`, the event handlers and the error dialog. The dialog appears only as the `deniedNotice` flag.
- Settings loading (`sublime.load_settings`), its change callback and `clear_settings`. The user's settings are a parameter.
- Floating-point settings values. A stored `0.0` would also disable the run; settings values are integers, booleans or strings here.
- The worker's early returns. When a gate fails, `fileLines` stays `None`, and `callback` later reads an `errors` attribute the thread never set. `GateRun` models which gate stops the run, not what that callback then does.
- The search's result when nothing is found is modelled as `None`, as the editor's API documents it.
