# file-monitor, modelled in Dafny

`file-monitor.py` tails a growing log file. Every few seconds a
`FileMonitor` reads the next block of the file, keeps the text after the
last newline for the next cycle, and hands every complete line to its
ordered list of `Rule`s. A rule searches the line with a regular
expression. On a match it increments its named counters and appends the
line (or its capture groups joined by spaces) to its named stores. The
flag a rule returns decides whether later rules still see the line.

This project models that engine.

- `text.dfy` (module `Text`): the string operations the engine uses.
  These are `" ".join` (file-monitor.py:202), `str.rsplit('\n', 1)`
  (file-monitor.py:273) and `str.splitlines()` (file-monitor.py:276) for
  the `'\n'` terminator. `Split`, which cuts a text at every separator,
  is the helper used to define `splitlines` and to state what a join
  gives back.
- `accumulators.dfy` (module `Accumulators`): the two `defaultdict`s,
  `counters` and `stores`, with their increment and append.
- `rules.dfy` (module `Rules`): the `Rule` datatype with `Check`, and the
  rule walk of `lineRead` as the function `Evaluate`.
- `tailing.dfy` (module `Tailing`): the buffer split at the end of `read`
  as the function `SplitBuffer`, and many cycles as `Feed`.
- `monitor.dfy` (module `Monitor`): the `FileMonitor` class with its
  constructor, the `filename` setter, `LineRead` and `Read`, plus a
  minimal `Handle` for the open file object. `Read` opens the file when
  needed and leaves the rest of the cycle to `Absorb`, whose loop over
  the lines is `HandOn`. `Poll` is a run of reads, and its contract ties
  them to `Feed`.

The regular-expression engine is a parameter. A rule's compiled pattern
is a function from a line to the capture groups of a match, or `None`.
The file system is a parameter too. `Read` is told whether `open`
succeeds and which chunk `file.read(block_size)` returns.

Behaviour of the code that the model keeps as written:

- `Rule.check` returns the rule's `stop` flag whether or not the line
  matched (file-monitor.py:212). So a stop rule that does not match still
  ends the rule walk (`UnmatchedStopHalts`). The module docstring
  (file-monitor.py:24-26) speaks only of a flag that decides whether to
  continue to the next rule.
- The `filename` setter closes the file but keeps the pending partial
  line (file-monitor.py:242-247). That text is then prefixed to the first
  line of the new file (`RenameScenario`). The module docstring
  (file-monitor.py:30-31) describes the change as closing the existing
  file and reopening with the new filename.
- `splitlines()` of the text before the last newline drops an empty last
  line. So an empty line that ends a read cycle's batch never reaches the
  rules. Which empty lines are seen therefore depends on how the text is
  cut into reads (`EmptyLineKeptInOneChunk`, `EmptyLineLostAcrossChunks`).
  The non-empty lines handed on never depend on the cuts
  (`CarryOverNonEmpty`), and when no line is empty, neither do the lines
  handed on (`CarryOverLines`).

## Model

| member | source | states |
|---|---|---|
| `Text.RSplitOnce` | file-monitor.py:273-274 | The result is `None` exactly when the text has no `'\n'`. Otherwise the text is head + `'\n'` + tail, and the tail holds no `'\n'`: the split is at the last newline. |
| `Text.Join` | file-monitor.py:202 | Definition of `sep.join`; its properties are the lemmas `Text.JoinSplit`, `Text.SplitJoin` and `Rules.RecordedLine`. |
| `Text.SplitLines` | file-monitor.py:276 | No line it returns contains `'\n'`. |
| `Text.JoinSplitLines` | file-monitor.py:276 | A text that does not end in `'\n'` is the join of its lines with `'\n'`. |
| `Text.SplitLinesJoin` | file-monitor.py:276 | Newline-free lines whose last line is not empty come back unchanged from splitting their join. |
| `Text.SplitLinesTerminated` | file-monitor.py:276 | A text ending in `'\n'` is the join of its lines followed by one `'\n'`: the final line break opens no line. |
| `Text.SplitLinesJoinTerminated` | file-monitor.py:276 | Newline-free lines followed by a final `'\n'` come back unchanged from `splitlines`, e.g. `"a\n"` gives only `"a"`. |
| `Accumulators.Count` | file-monitor.py:233 | Definition of a `defaultdict(int)` read: 0 for a name never incremented; its properties are `Accumulators.IncrementCount` and `Rules.ProcessLinesGrows`. |
| `Accumulators.Stored` | file-monitor.py:232 | Definition of a `defaultdict(list)` read: the empty list for a name never appended to; its properties are `Accumulators.AppendAllStored` and `Rules.ProcessLinesGrows`. |
| `Accumulators.Increment` | file-monitor.py:206-207 | Definition of the loop of `+= 1`; its properties are the lemmas `Accumulators.IncrementCount` and `Accumulators.IncrementKeys`. |
| `Accumulators.AppendAll` | file-monitor.py:209-210 | Definition of the loop of appends; its properties are the lemmas `Accumulators.AppendAllStored` and `Accumulators.AppendAllKeys`. |
| `Accumulators.IncrementCount` | file-monitor.py:206-207 | After the increments, a counter equals its old value (0 if never set) plus the number of times its name is listed. Repeated names count twice; unlisted counters are unchanged. |
| `Accumulators.IncrementKeys` | file-monitor.py:233 | The increments add exactly the listed names to the counters' keys: counters are created on first increment. |
| `Accumulators.AppendAllStored` | file-monitor.py:209-210 | After the appends, a store equals its old contents (empty if never set) followed by one copy of the line per listing of its name. Earlier entries are unchanged. |
| `Accumulators.AppendAllKeys` | file-monitor.py:232 | The appends add exactly the listed names to the stores' keys: stores are created on first append. |
| `Rules.NewRule` | file-monitor.py:188-193 | A new rule keeps its pattern, has no counters, no stores and `stop` off. It changes no counters or stores on any line. |
| `Rules.Rule.Effect` | file-monitor.py:199-210 | Definition of what `check` does to the counters and stores; its properties are the lemmas `Rules.EffectOnCounter` and `Rules.EffectOnStore`. |
| `Rules.Rule.Check` | file-monitor.py:196-212 | Returns the rule's `stop` flag whatever the match result. The new counters and stores are the rule's effect on the line: unchanged on no match; on a match, every listed counter incremented and the recorded line appended to every listed store. |
| `Rules.Recorded` | file-monitor.py:199-202 | Definition of the recorded line; its property is the lemma `Rules.RecordedLine`. |
| `Rules.RecordedLine` | file-monitor.py:199-202 | With no capture groups the recorded line is the line itself. With groups it is the groups in order, separated by single spaces: it splits back into them when no group holds a space. |
| `Rules.EffectOnCounter` | file-monitor.py:206-207 | A rule raises each counter by its number of listings when the line matches, and by nothing when it does not. |
| `Rules.EffectOnStore` | file-monitor.py:209-210 | A rule appends the recorded line to each store once per listing when the line matches, and appends nothing when it does not. |
| `Rules.Evaluate` | file-monitor.py:255-260 | Definition of the rule walk of `lineRead`; its properties are the lemmas `Rules.EvaluateCounter`, `Rules.EvaluateStore`, `Rules.AfterStopIgnored` and `Rules.UnmatchedStopHalts`. |
| `Rules.Reached` | file-monitor.py:255-260 | The rules whose `check` runs form a prefix of the list. None of them but the last has `stop`. The prefix ends early only at a rule with `stop`, matched or not. |
| `Rules.EvaluateCounter` | file-monitor.py:255-260 | After `lineRead`, each counter has risen by exactly the gains of the matching rules in the reached prefix. |
| `Rules.EvaluateStore` | file-monitor.py:255-260 | After `lineRead`, each store has been extended, at its end, by exactly the recorded lines of the matching rules in the reached prefix, in rule order. |
| `Rules.AfterStopIgnored` | file-monitor.py:255-260 | Rules after a rule with `stop` have no effect: evaluating the whole list equals evaluating it up to that rule. |
| `Rules.UnmatchedStopHalts` | file-monitor.py:259-260 | When no rule matches up to and including a rule with `stop`, the line changes nothing, whatever the later rules are. |
| `Rules.ProcessLines` | file-monitor.py:276-277 | Definition of the loop that hands each line to `lineRead`; its properties are the lemmas `Rules.ProcessLinesConcat` and `Rules.ProcessLinesGrows`. |
| `Rules.ProcessLinesConcat` | file-monitor.py:276-277 | Handing on two batches of lines one after the other has the same effect as handing on their concatenation. |
| `Rules.ProcessLinesGrows` | file-monitor.py:276-277 | Over any lines, no counter decreases and every store keeps its old entries as a prefix. |
| `Tailing.SplitBuffer` | file-monitor.py:273-277 | The kept text holds no `'\n'` and no line handed on holds one. Without a `'\n'` in the buffer no line is handed on and the whole buffer is kept. |
| `Tailing.SplitBufferRest` | file-monitor.py:273-274 | The kept text is a suffix of the buffer; when the buffer holds a `'\n'`, the kept text starts just after the last one. |
| `Tailing.SplitBufferPieces` | file-monitor.py:273-276 | Read off the buffer's `'\n'`-pieces, the kept text is the last piece. The lines are the other pieces, minus a last one that is empty. |
| `Tailing.Feed` | file-monitor.py:271-277 | Definition of repeated read cycles; its properties are the lemmas `Tailing.CarryOverRest`, `Tailing.CarryOverLines` and `Tailing.CarryOverNonEmpty`, and `Monitor.FileMonitor.Poll` ties it to successive `read` calls. |
| `Tailing.CarryOverRest` | file-monitor.py:271-277 | However the text arrives in chunks, the text pending after the last cycle is what follows the text's last `'\n'`. |
| `Tailing.CarryOverLines` | file-monitor.py:271-277 | When no line of the text is empty, the lines handed on over all cycles are exactly the text's complete lines, in order, each joined up across chunk boundaries. |
| `Tailing.CarryOverNonEmpty` | file-monitor.py:271-277 | For every text and every way of cutting it into chunks, the non-empty lines handed on over all cycles are exactly the text's non-empty complete lines, in order, each joined up across chunk boundaries. |
| `Tailing.CarryOverExample` | file-monitor.py:271-277 | Starting from nothing pending, the chunks `"foo\nbar"` then `"baz\n"` hand on `"foo"` and then `"barbaz"`, and leave nothing pending. |
| `Tailing.CarryOverFirstCycle` | file-monitor.py:271-277 | The first of those cycles hands on `"foo"` and keeps `"bar"`. |
| `Tailing.CarryOverSecondCycle` | file-monitor.py:271-277 | The second cycle completes `"barbaz"` and keeps nothing. |
| `Tailing.LineThenPartial` | file-monitor.py:273-277 | A line, a newline and a partial line: the line is handed on unless it is empty, and the partial line is kept. |
| `Tailing.EmptyLineKeptInOneChunk` | file-monitor.py:273-277 | Read in one cycle, `"\nb\n"` hands on the empty line and then `"b"`. |
| `Tailing.EmptyLineLostAcrossChunks` | file-monitor.py:273-277 | Read as `"\n"` then `"b\n"`, the same text hands on only `"b"`. |
| `Tailing.TwoLines` | file-monitor.py:273-277 | Two newline-terminated lines, the second not empty, are both handed on in one cycle and nothing is kept. |
| `Monitor.Handle.constructor` | file-monitor.py:266 | A successful `open` gives a handle on that path that is not closed. |
| `Monitor.Handle.Close` | file-monitor.py:245 | After `close` the handle is closed. |
| `Monitor.FileMonitor.constructor` | file-monitor.py:227-234 | A new monitor keeps its name, filename and block size (8192 by default). It has no open file, nothing pending, empty counters and stores, and no rules. |
| `Monitor.FileMonitor.SetFilename` | file-monitor.py:242-247 | Any open file is closed and forgotten, and the new filename is set. The pending text, the rules, the counters and the stores are unchanged. |
| `Monitor.FileMonitor.LineRead` | file-monitor.py:255-260 | The counters and stores become the rule walk's result for the line (see `Rules.Evaluate`'s lemmas). The line is recorded as handed on once. |
| `Monitor.FileMonitor.HandOn` | file-monitor.py:276-277 | The counters and stores become those of `Rules.ProcessLines` over the lines, and the lines are logged as handed on, in order. |
| `Monitor.FileMonitor.Absorb` | file-monitor.py:270-277 | The pending text becomes what follows the last `'\n'` of the old pending text plus the chunk (`Tailing.SplitBuffer`). The complete lines before it are handed to `lineRead` in order. Only the pending text, the counters, the stores and the line log may change. |
| `Monitor.FileMonitor.Read` | file-monitor.py:263-277 | If no file is open and `open` fails, nothing changes. Otherwise the open file is kept, or a fresh one is opened on the current filename, and the chunk is absorbed as `Monitor.FileMonitor.Absorb` states. Pending text never holds a `'\n'`, and an open file is always open on the current filename. |
| `Monitor.FileMonitor.Poll` | file-monitor.py:250-252 | Successive reads of a file that opens, one per chunk: the pending text becomes `Tailing.Feed`'s rest, the lines handed on are `Tailing.Feed`'s lines in order, and the tallies are those of `Rules.ProcessLines` over them. |
| `Monitor.FeedRead` | file-monitor.py:263-277 | One read cycle followed by the cycles of the remaining chunks gives the pending text, the tallies and the lines handed on of all the cycles of `Tailing.Feed`. |
| `Monitor.CarryOverScenario` | file-monitor.py:263-277 | On a fresh monitor whose first open fails, the chunks `"foo\nbar"` and `"baz\n"` then hand `"foo"` and `"barbaz"` to `lineRead`, in that order, and leave nothing pending. That a failed open changes nothing is stated in general by `Monitor.FileMonitor.Read`. |
| `Monitor.RenameScenario` | file-monitor.py:242-247 | `"par"` read from one file, a rename, then `"tial\n"` from the new file hands `"partial"` to `lineRead`: the setter keeps the stale partial line. |

## Left out

- The HTTP views (`MonitorsView`, `MonitorView`, `StoresView`, `CountersView`, `CounterView`, `StoreView`) are not modelled. They are Twisted web rendering; lines 149-175 are also mis-indented.
- The timer of `FileMonitor.loop` and `main` are not modelled. They are a Twisted `LoopingCall` timer, reactor and TCP setup. `Monitor.FileMonitor.Poll` models the reads the timer makes, in order, but not their timing.
- Real file I/O is not modelled. `Read` takes whether `open` succeeds and the chunk `read(block_size)` returns, and assumes the chunk is at most `block_size` long.
- `Monitor.FileMonitor.constructor`: the block size is a `nat`, so a negative `block_size`, for which `file.read` reads to the end of the file, is not modelled. The code only ever uses the default 8192. The handle's read position and the file's contents are not modelled, so neither is the fact that a new file is read from its start.
- The regular-expression engine (`re.compile`, `search`) is not modelled. A rule carries its compiled pattern as a function from a line to the match's groups. A pattern that fails to compile is not modelled.
- The `print` calls (file-monitor.py:204, 268) are not modelled.
- `splitlines()` on a byte string also breaks at `'\r'` and `"\r\n"`. Only `'\n'` is modelled.
- A capture group that does not take part in a match is `None` in Python, and `" ".join` then raises `TypeError`. The model assumes every group is a string.
- Concurrent readers and locking are not modelled. The code has neither and relies on the single-threaded reactor.
- The `filename` property getter is not modelled separately: it is the `filename` field.
