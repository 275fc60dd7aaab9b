# FluxFetch download dispatcher, modelled in Dafny

FluxFetch is a desktop download manager. The user opens a text file of URLs, picks rows and a
download directory, and starts. The `MainWindow` then resolves each selected link through its
redirect page (`get_direct_url`). It keeps at most `parallel` items in its `active` list, each
handed either to an aria2 daemon over JSON-RPC or to a built-in single-connection worker
(`FallbackDownloader`).
A one-second poll serves the backend its aria2 probe picks. A running aria2 frees each item whose
status is `complete` or `error`; otherwise the poll frees each item whose fallback thread has ended.
Each freed slot starts the next queued item in FIFO order. A separate helper
(`extract_links_from_text`) pulls the distinct `http(s)` URLs out of a page's text.

This project models that core and proves what it does:

- `Text`, `UrlList`: Python's `str.strip()` and the URL-file line filter of `on_open_file`, the
  filename rule `basename(urlparse(url).path) or url`, and `os.path.join` for the fallback
  destination.
- `Progress`: the percentage `int(done*100/total) if total else 0`.
- `Fallback`: `FallbackDownloader` as a class with its `_cancel` flag. `run`'s chunk loop is a
  method, specified by the byte count and signal list it produces.
- `LinkResolver`: `get_direct_url`. The page fetch is an input, and the regular expression
  `window\.open\("([^"]+)"\)` is a scanner proved equal to a declarative reading of the pattern.
- `LinkExtractor`: `re.findall(r'https?://[^\s\'"<>]+')` as a leftmost, greedy, non-overlapping
  scanner, and the order-preserving de-duplication loop.
- `Tasks`: the per-item record (the Python dict) and what one backend answer does to it.
- `Orchestrator`: the dispatch state machine on a `Manager` value. It has the table `items`, the
  FIFO `remaining` and the `active` list, all holding identities into one `records` map, so that
  the same dict seen from several lists is one record. The operations are `populate_table`,
  `on_open_file`, `on_start`, `_start_next`, `poll_status` and `on_stop_all`. The invariant
  `Valid` includes `|active| <= parallel`.
- `Window`: `MainWindow` as a class whose fields the handlers update in place. Each method's
  loop is proved to move `State()` exactly as the matching `Orchestrator` function does.

Every outside answer is an input:

- **aria2 probes.** `is_running()` is probed again on every `_start_next` call and on every poll.
  So a single `on_start` can send some items to aria2 and others to the fallback worker. The
  probe and the `add_uri` reply together are the `Dispatch` value of one `_start_next` call.
- **Backend answers per call.** Each handler takes `nat -> Dispatch`, the answer met by its
  `k`-th `_start_next` call.
- **One poll's observations.** An `Observation` holds the probe, the `tell_status` reply per item
  and the set of live fallback threads.
- **File and URL parsing.** The file's lines and each URL's parsed path are given.

Behaviour of the code that the model keeps as it is:

- **A failed dispatch holds its slot.** When `add_uri` raises, the item is marked `error` but
  still appended to `active`. It has no gid and no worker, so no poll ever releases it. Its slot
  is never freed (`FailedDispatchIsStuck`, `FailedDispatchKeepsSlot`).
- **Leftover gids.** When `add_uri` raises, the item keeps any gid from an earlier run, which a
  later poll may still act on. `add_uri` returning no `result` clears the gid.
- **Stop-all covers finished items too.** `on_stop_all` walks the whole table and cancels every
  item that has a worker, finished or not. It leaves `active` and `remaining` as they are.
- **Out-of-range progress is dropped.** `QProgressBar.setValue` ignores values outside 0..100.
  That is why progress above 100 (more bytes than announced) leaves the bar unchanged
  (`ShowProgress`).
- **Each poll serves one backend.** In a mixed run, a poll in which aria2 answers skips every
  item without a gid, so a fallback item whose thread has ended keeps its slot. A poll in which
  aria2 does not answer skips every item without a worker, so a finished aria2 item keeps its
  slot. Such an item is freed only by a later poll whose probe picks its backend
  (`OtherBackendKeepsSlot`).
- **A second Start during a run.** `on_start` replaces `remaining` with the new selection and
  empties `active` without cancelling anything. Transfers of the earlier run go on but are no
  longer polled, so more than `parallel` transfers can run at once. The bound in `Valid` is on
  the `active` list, not on transfers (`OnStartShape`).
- **A filename taken from the URL.** When a URL's path has an empty basename, the filename is the
  whole URL (`FilenameShape`), which contains `/`. The fallback destination `join(dir, filename)`
  then names a file under directories that do not exist. `open` in `run` fails, the error is only
  printed, and the thread ends, so the next fallback poll marks the item `complete` at 100
  (`FallbackEffect`). `JoinBasename` covers only filenames without `/`.

## Model

| member | source | states |
|---|---|---|
| Text.TrimStartSpec | main.py:171 | `lstrip` removes a whitespace-only prefix and stops at the first non-space character; the result is a suffix of the input |
| Text.TrimEndSpec | main.py:171 | `rstrip` removes a whitespace-only suffix and stops at the last non-space character; the result is a prefix of the input |
| Text.StripSpec | main.py:171 | `strip()` is empty exactly when the line is all whitespace; otherwise it starts and ends with non-space characters |
| Text.StripShape | main.py:171 | the stripped text is a slice of the line with only whitespace cut from either side |
| Text.StripIdempotent | main.py:171 | stripping twice is stripping once |
| UrlList.ParseUrlListClean | main.py:170-171 | the list comprehension keeps at most one URL per line; each URL is non-empty and already stripped |
| UrlList.ParseUrlListMembers | main.py:171 | a URL is in the list if and only if it is non-empty and some line strips to it |
| UrlList.ParseUrlListConcat | main.py:171 | the filter keeps file order: the URLs of concatenated lines are the concatenated URL lists |
| UrlList.ParseUrlListLine | main.py:171 | a whitespace-only line contributes nothing; any other line contributes its stripped text |
| UrlList.BasenameShape | main.py:186 | `basename` is the longest `/`-free suffix of the path: a suffix with no `/`, preceded by a `/` or by the start |
| UrlList.FilenameShape | main.py:186 | the filename is the URL when the path has no basename, and otherwise the path's last component; it is empty only for an empty URL |
| UrlList.JoinBasename | main.py:256 | for a filename without `/`, the fallback destination `join(dest_dir, filename)` has that filename as its basename |
| Progress.PercentAtMost100 | main.py:89 | the percentage is at most 100 while no more than the announced total has arrived |
| Progress.PercentOfTotal | main.py:285 | receiving the whole total is 100 percent |
| Progress.PercentMonotone | main.py:89 | more bytes never give a smaller percentage |
| Fallback.Handled | main.py:84-85 | definition of how many chunks the loop handles: none when cancel came first, otherwise every chunk before the cancel lands; its contract states only that this is at most the chunk count |
| Fallback.FallbackDownloader.constructor | main.py:69-73 | a new worker keeps its URL and destination, and its cancel flag is clear |
| Fallback.FallbackDownloader.Cancel | main.py:74-75 | `cancel()` sets the cancel flag |
| Fallback.FallbackDownloader.Run | main.py:80-90 | the loop stops at the first chunk that finds the flag set; the byte count and signals are those of the chunks handled before that; the flag ends set exactly when cancel landed |
| Fallback.EmittedSorted | main.py:86-90 | the emitted progress signals never decrease, and none exceeds the last percentage |
| Fallback.EmittedAtMost100 | main.py:89 | with no more bytes than `Content-Length`, or with no `Content-Length` at all, every signal is in 0..100; with no `Content-Length` every signal is 0 |
| Fallback.EmittedCount | main.py:86-90 | one signal per non-empty chunk; whenever a signal was emitted, the last one is the percentage of all bytes counted |
| Fallback.EmittedPrefix | main.py:85 | stopping early only truncates the signals: those of a prefix of the chunks are a prefix of all of them |
| LinkResolver.QuoteFreeRun | main.py:100 | the greedy `[^"]+` run: every character in it is not `"`, and it stops at a `"` or the end of the text |
| LinkResolver.MatchAtIsMatch | main.py:100 | the scanner matches at a position with a given capture exactly when the declarative pattern does (both directions) |
| LinkResolver.Leftmost | main.py:100 | `re.search` finds the leftmost match: the position it returns matches, and no earlier position does |
| LinkResolver.GetDirectUrl | main.py:95-105 | a failed fetch or a non-200 status returns the page URL |
| LinkResolver.NoMatchKeepsUrl | main.py:100-103 | a 200 page with no `window.open("...")` returns the page URL |
| LinkResolver.LeftmostMatchWins | main.py:100-102 | on a 200 page the result is the capture of the leftmost `window.open("...")` |
| LinkResolver.RewrittenUrlIsCapture | main.py:95-105 | a changed URL comes only from a 200 body; it is a non-empty capture without `"` found in that body |
| LinkResolver.ResolvesExamplePage | main.py:100-102 | a concrete redirect page resolves to the URL inside its `window.open` call |
| LinkExtractor.SchemeLen | extract_links_headless.py:20 | `https?://` matches at a position with length 8 exactly for `https://` and with length 7 exactly for `http://` |
| LinkExtractor.UrlRun | extract_links_headless.py:20 | the greedy `[^\s'"<>]*` run: every character is a URL character, and the run stops at a non-URL character or the end |
| LinkExtractor.Spans | extract_links_headless.py:20 | every span found is a greedy match at its start; the spans are ordered and do not overlap |
| LinkExtractor.FindAll | extract_links_headless.py:20 | definition: `findall` returns the text of each span, in order; specified by `LinkShape`, `SpansCover` and `NoSchemeNoLinks` |
| LinkExtractor.SpansCover | extract_links_headless.py:20 | no match is skipped: every position where the pattern matches lies inside a found span |
| LinkExtractor.MatchShape | extract_links_headless.py:20 | a match is `http://` or `https://` followed by at least one character, all of them URL characters |
| LinkExtractor.LinkShape | extract_links_headless.py:20 | each link is an `http(s)://` URL made of URL characters, cut from the text at its span |
| LinkExtractor.NoSchemeNoLinks | extract_links_headless.py:20 | a text where neither `http://` nor `https://` occurs yields no links |
| LinkExtractor.DedupSpec | extract_links_headless.py:21-28 | the de-duplication has no duplicates, loses no URL, and keeps URLs in order of first occurrence |
| LinkExtractor.ExtractLinksFromText | extract_links_headless.py:18-28 | the loop with its `seen` set returns the de-duplicated `findall`: duplicate-free, with exactly the URLs found |
| Tasks.NewItem | main.py:186-195 | definition of the dict built for a new row: its URL, the filename rule's name, status `queued`, progress 0, no gid and no worker; the filename is specified by `UrlList.FilenameShape` |
| Tasks.ShowProgress | main.py:286 | definition: `setValue` takes a value in 0..100 and ignores any other; this keeps every record's progress in 0..100, as part of `Orchestrator.Valid` (`PollValid`) |
| Tasks.DispatchedSpec | main.py:247-262 | a dispatch keeps url, filename and progress. An `add_uri` exception marks it `error` and keeps gid and worker. A reply stores its `result`, or none, as the gid. The fallback attaches an uncancelled worker for `join(dir, filename)` |
| Tasks.AriaEffect | main.py:276-296 | an item without a gid, or with an error or empty reply, is kept as it is. A reply updates the progress. `complete` and `error` free the slot with that status, and any other status only relabels the item with that status word |
| Tasks.FallbackEffect | main.py:300-307 | an item frees its slot exactly when it has a worker whose thread is no longer alive; it is then `complete` at 100 |
| Tasks.CancelItem | main.py:270 | cancelling sets the worker's cancel flag and the status `cancelled`, and keeps everything else, including the worker's URL and destination |
| Lists.RemoveFirst | main.py:289 | `list.remove` of a present value leaves one element fewer, loses no other value and adds none. Python raises `ValueError` on an absent value; every removal here is of a snapshot item still in `active` (`StepKeepsSnapshot`), and the function then leaves the list unchanged |
| Lists.RemoveFirstAt | main.py:289 | `list.remove` of a present value returns the list with exactly its first occurrence cut out: the prefix before it and the suffix after it |
| Orchestrator.Initial | main.py:115-117 | the window starts with empty table, FIFO and active list, the timer stopped, and the invariant holding |
| Orchestrator.PopulateIds | main.py:177-195 | populating appends fresh identities in order and leaves the queues and the run's settings alone |
| Orchestrator.PopulateValid | main.py:177-195 | populating keeps every invariant |
| Orchestrator.PopulateKeys | main.py:195 | populating adds exactly one fresh record per URL |
| Orchestrator.PopulateKeeps | main.py:179 | in the model, dicts that still sit in the FIFO or in `active` survive a reload unchanged; their deleted Qt widgets are not modelled (see Left out) |
| Orchestrator.PopulateNew | main.py:180-195 | the record of the `k`-th URL is the new row for that URL |
| Orchestrator.PopulateRecords | main.py:177-195 | the records after populating are the old ones, unchanged, plus one new row per URL |
| Orchestrator.PopulateTable | main.py:179-195 | the rebuilt table lists one record per URL, in order, each the new row for its URL |
| Orchestrator.PopulateShape | main.py:177-195 | `populate_table` keeps the invariant and the queues, and shows exactly the given URLs, one new row each |
| Orchestrator.OpenListShape | main.py:167-175 | a file with no URL changes nothing; otherwise the table shows exactly the non-blank lines, stripped, in file order |
| Orchestrator.StartNextValid | main.py:241-263 | with a free slot (or an empty FIFO), `_start_next` keeps every invariant, in particular `|active| <= parallel` |
| Orchestrator.StartNextEffect | main.py:241-263 | `_start_next` moves the FIFO head to the end of `active` and dispatches it into the download directory; it changes no other record, and with an empty FIFO nothing changes |
| Orchestrator.DispatchNQueues | main.py:238-239 | `n` dispatches move the first `n` queued items, in FIFO order, to the end of `active` |
| Orchestrator.DispatchNValid | main.py:238-239 | with `n` free slots, `n` dispatches keep every invariant |
| Orchestrator.DispatchNLater | main.py:238-239 | the items still queued after `n` dispatches keep their records |
| Orchestrator.DispatchNUntouched | main.py:241-263 | a record outside the FIFO is untouched by any number of dispatches |
| Orchestrator.DispatchNRecords | main.py:238-243 | the `i`-th queued item is dispatched by the `i`-th `_start_next` call, with that call's backend answer |
| Orchestrator.Select | main.py:225 | the selection holds exactly the checked table items |
| Orchestrator.SelectOrdered | main.py:225 | the selection is a subsequence of the table: it keeps table order |
| Lists.WithoutOrdered | main.py:225 | filtering a list keeps its order: the result is a subsequence of the list |
| Orchestrator.ResolveAllSpec | main.py:228-232 | every selected item gets its direct link and status `queued`; no other record changes |
| Orchestrator.ReadyValid | main.py:221-237 | the state `on_start` builds before dispatching keeps the invariant; it resolves exactly the selected records |
| Orchestrator.OnStartShape | main.py:212-239 | a cancelled directory dialog (the empty string) changes nothing, and an empty selection only records the directory. Otherwise the first `min(parallel, selected)` items, in table order, become active and the rest are queued. The invariant holds throughout |
| Orchestrator.OnStartRecords | main.py:228-262 | after `on_start`, the `i`-th selected item holds its resolved link. If `i < parallel`, it was dispatched into the chosen directory with the `i`-th backend answer |
| Orchestrator.OnStartUntouched | main.py:225-239 | `on_start` leaves the records of unselected items as they were |
| Orchestrator.StepEffect | main.py:275-307 | polling one active item applies its verdict to its record. A released item leaves `active`, and the FIFO head, if any, is dispatched with the next backend answer. Nothing else changes |
| Orchestrator.PollFromValid | main.py:273-307 | a pass over the snapshot keeps every invariant and the table, settings and record keys |
| Orchestrator.PollValid | main.py:273-307 | `poll_status` keeps every invariant, in particular `|active| <= parallel` |
| Orchestrator.PollShape | main.py:275-307 | during a pass, exactly the released items leave `active`, one `_start_next` call is made per release, and the first `min(released, queued)` queued items move in order to the end of `active` |
| Orchestrator.PollFifo | main.py:273-307 | FIFO refill for one poll of the whole snapshot of `active` |
| Orchestrator.OtherBackendKeepsSlot | main.py:274-307 | a poll serves only the backend its probe picks: with aria2 answering, an active item without a gid stays active; without aria2, an active item without a worker stays active |
| Orchestrator.PollUntouched | main.py:273-307 | a record that is neither polled nor queued is untouched by a poll |
| Orchestrator.PollPolled | main.py:275-307 | each polled item ends with the record its verdict gives it |
| Orchestrator.PollQueued | main.py:241-307 | the `i`-th queued item is dispatched by the pass's `i`-th `_start_next` call if that call happens, and is untouched otherwise |
| Orchestrator.PollDispatchesQueued | main.py:273-307 | in one poll the number of `_start_next` calls equals the number of released items. The `i`-th queued item is dispatched with the `i`-th call's answer exactly when `i` is below that number |
| Orchestrator.FailedDispatchIsStuck | main.py:249-263 | a fresh item whose `add_uri` raises is appended to `active` anyway, marked `error`, with neither gid nor worker |
| Orchestrator.FailedDispatchKeepsSlot | main.py:276-301 | an active item with neither gid nor worker is never released by a poll: it keeps its slot and its record |
| Orchestrator.CancelAllSpec | main.py:268-270 | the stop loop cancels exactly the listed items that have a worker and changes no other record |
| Orchestrator.StopAllSpec | main.py:265-271 | `on_stop_all` cancels every table item with a worker, finished ones included. It stops the timer, keeps the invariant and leaves the queues alone |
| Orchestrator.StopAllIdempotent | main.py:265-271 | stopping twice is stopping once |
| Text.IsSpace | main.py:171 | definition of the characters `str.isspace()` and `\s` accept; used by `Strip` and `LinkExtractor.IsUrlChar` |
| Text.TrimStart | main.py:171 | definition of `lstrip`; specified by `TrimStartSpec` |
| Text.TrimEnd | main.py:171 | definition of `rstrip`; specified by `TrimEndSpec` |
| Text.Strip | main.py:171 | definition of `strip()`; specified by `StripSpec`, `StripShape` and `StripIdempotent` |
| UrlList.ParseUrlList | main.py:170-171 | definition of the line filter; specified by `ParseUrlListClean`, `ParseUrlListMembers`, `ParseUrlListConcat` and `ParseUrlListLine` |
| UrlList.Basename | main.py:186 | definition of `os.path.basename`; specified by `BasenameShape` |
| UrlList.Filename | main.py:186 | definition of `basename(path) or url`; specified by `FilenameShape` |
| UrlList.Join | main.py:256 | definition of `os.path.join` for one component; specified by `JoinBasename` |
| Progress.Percent | main.py:89 | definition of `int(done*100/total) if total else 0`; specified by `PercentAtMost100`, `PercentOfTotal` and `PercentMonotone` |
| Fallback.Downloaded | main.py:88 | definition of the byte count; tied to the loop by `FallbackDownloader.Run` |
| Fallback.Emitted | main.py:86-90 | definition of the signals emitted; specified by `EmittedSorted`, `EmittedAtMost100`, `EmittedCount` and `EmittedPrefix` |
| LinkResolver.IsMatchAt | main.py:100 | definition: the declarative reading of `window\.open\("([^"]+)"\)` at one position with a given capture; used by `MatchAtIsMatch`, `NoMatchKeepsUrl`, `LeftmostMatchWins` and `RewrittenUrlIsCapture` |
| LinkResolver.MatchAt | main.py:100 | definition of the pattern scanner at one position; specified by `MatchAtIsMatch` |
| LinkExtractor.IsUrlChar | extract_links_headless.py:20 | definition of the class `[^\s'"<>]`; used by `UrlRun`, `MatchShape` and `LinkShape` |
| LinkExtractor.MatchEnd | extract_links_headless.py:20 | the end of the greedy match at a position lies after it and within the text; specified further by `MatchShape` |
| LinkExtractor.Dedup | extract_links_headless.py:21-28 | definition of the order-preserving de-duplication; specified by `DedupSpec` |
| Tasks.HasGid | main.py:276-277 | definition: the item has a truthy `aria_gid`; used by `AriaEffect` |
| Tasks.Dispatched | main.py:247-262 | definition of what `_start_next` does to the head item; specified by `DispatchedSpec` |
| Orchestrator.AddItem | main.py:180-195 | definition of one row of `populate_table`; specified by `AddItemSpec` |
| Orchestrator.AddItemSpec | main.py:180-195 | adding one URL stores its new row's record under an identity not used before, and keeps every invariant |
| Orchestrator.PopulateFrom | main.py:180-195 | definition of the row loop; specified by `PopulateIds`, `PopulateValid`, `PopulateKeys`, `PopulateKeeps` and `PopulateNew` |
| Orchestrator.Populate | main.py:177-195 | definition of `populate_table`; specified by `PopulateShape` and `PopulateRecords` |
| Orchestrator.OpenList | main.py:167-175 | definition of `on_open_file` after the dialog; specified by `OpenListShape` |
| Orchestrator.StartNext | main.py:241-263 | definition of `_start_next`; specified by `StartNextValid` and `StartNextEffect` |
| Orchestrator.DispatchN | main.py:238-239 | definition of the dispatch loop of `on_start`; specified by the `DispatchN` lemmas |
| Orchestrator.Resolved | main.py:229-232 | definition of resolving one item; used by `ResolveAllSpec` |
| Orchestrator.ResolveOne | main.py:229-232 | definition of one iteration of the resolving loop on the records map; used by `ResolveAll` and `ResolveAllSpec` |
| Orchestrator.DestDir | main.py:245 | definition of `getattr(self, 'last_dest_dir', os.getcwd())`; used by `StartNext` |
| Orchestrator.ResolveAll | main.py:228-232 | definition of the resolving loop; specified by `ResolveAllSpec` |
| Orchestrator.Ready | main.py:221-237 | definition of the state `on_start` builds before dispatching; specified by `ReadyValid` |
| Orchestrator.OnStart | main.py:212-239 | definition of `on_start`; specified by `OnStartShape`, `OnStartRecords` and `OnStartUntouched` |
| Orchestrator.EffectOf | main.py:274-307 | definition of the poll verdict for one item: the aria2 branch when aria2 answers, the fallback branch otherwise; specified by `Tasks.AriaEffect` and `Tasks.FallbackEffect` |
| Orchestrator.Step | main.py:275-307 | definition of one iteration over the snapshot; specified by `StepEffect` and `StepValid` |
| Orchestrator.StepValid | main.py:275-307 | polling one active item keeps every invariant |
| Orchestrator.PollFrom | main.py:275-307 | the pass never lowers the count of `_start_next` calls; specified further by `PollFromValid`, `PollShape`, `PollPolled` and `PollQueued` |
| Orchestrator.Poll | main.py:273-307 | definition of `poll_status`; specified by `PollValid`, `PollFifo` and `PollDispatchesQueued` |
| Orchestrator.CancelOne | main.py:269-270 | definition of cancelling one item; used by `CancelAllSpec` |
| Orchestrator.CancelAll | main.py:268-270 | definition of the stop loop; specified by `CancelAllSpec` |
| Orchestrator.StopAll | main.py:265-271 | definition of `on_stop_all`; specified by `StopAllSpec` and `StopAllIdempotent` |
| Window.MainWindow.constructor | main.py:109-117 | a new window is in the initial state with the invariant holding |
| Window.MainWindow.OnOpenFile | main.py:167-175 | the handler moves the window exactly as `OpenList` does, and keeps the invariant |
| Window.MainWindow.PopulateTable | main.py:177-195 | the row loop builds exactly the state `Populate` describes, and keeps the invariant |
| Window.MainWindow.StartNext | main.py:241-263 | the method moves the window exactly as `StartNext` does |
| Window.MainWindow.OnStart | main.py:212-239 | the handler moves the window exactly as `OnStart` does, and keeps the invariant |
| Window.MainWindow.DispatchFirst | main.py:238-239 | the dispatch loop is `n` dispatches in a row, and keeps the invariant under `n` free slots |
| Window.MainWindow.ResolveLinks | main.py:228-232 | the resolving loop equals `ResolveAll` and changes no other field |
| Window.MainWindow.PollAriaItem | main.py:276-297 | one aria2-branch iteration is one poll step, and keeps the invariant |
| Window.MainWindow.PollFallbackItem | main.py:300-307 | one fallback-branch iteration is one poll step, and keeps the invariant |
| Window.MainWindow.PollStatus | main.py:273-307 | the poll loop over the snapshot equals `Poll`, and keeps the invariant |
| Window.MainWindow.OnStopAll | main.py:265-271 | the stop loop equals `StopAll`, and keeps the invariant |

## Left out

- The Qt user interface: widgets, dialogs, message boxes and `processEvents`. Dialog results are
  inputs: the chosen file's lines, the chosen directory as the string the dialog returns (`""`
  when it is cancelled), the checked rows, the spin box value. `processEvents` in the resolving loop
  can run a pending poll tick of an earlier run, or another click handler, between two
  resolutions; `Orchestrator.OnStart` is one atomic step and does not capture that interleaving.
- Network and RPC are replaced by their answers: the HTTP requests of `get_direct_url`, `run`,
  `add_uri`, `tell_status` and `is_running`.
- `fetch` is one answer per URL. The source sends one GET per selected item, so two items with the
  same URL could get different pages; the model gives them the same outcome.
- The poll timer. `poll_status` runs only while the timer is started, between `on_start` and
  `on_stop_all`. `Window.MainWindow.PollStatus` requires `polling`; the functions
  `Orchestrator.Poll` and `Orchestrator.Step` do not and describe a poll in any state.
- Launching and stopping the aria2 process: `start_aria2`, with its retry loop and sleeps, and the
  `stop_aria2` call in `on_stop_all`. The model does not depend on them, because every
  `_start_next` call and every poll probes aria2 again.
- Threads and concurrency. The fallback worker's progress signal is not connected to the item's
  bar, and a cancel from another thread is the `cancelAt` input of `Run`.
- `_populate_sizes`, `_human_size` and the speed text of a non-final aria2 status. Only the
  status word is kept (`Reported`).
- `urlparse` is not modelled: each URL's path is an input.
- The filename and destination rules are the POSIX ones (`posixpath`): `Basename` splits only at
  `/` and `Join` inserts `/`. On Windows `os.path` is `ntpath`, which also splits at `\` and `:`
  and joins with `\`; that is not modelled.
- File I/O: reading the URL file, whose lines are given, and writing chunks to disk in `run`.
- Exceptions inside `run`: `raise_for_status`, connection errors, and a `Content-Length` that is
  not a number.
- Progress.PercentAtMost100: `int(done*100/total)` is float division in the source. The model uses
  exact integer division and does not capture float rounding for very large byte counts.
- The short-lived `resolving link...` and `starting` status texts are not kept, because the same
  call always overwrites them.
- The connections-per-file spin box and the aria2 options it sets.
- A JSON-RPC reply that is not a dict.
- Exceptions inside the aria2 poll's `try`, apart from the `tell_status` call itself: malformed
  lengths, and errors raised by the `_start_next` it calls.
- Parallelism before the first `on_start`. `self.parallel` does not exist yet and is modelled as 0.
  No handler uses it before `on_start` sets it.
- The Selenium page loader, BeautifulSoup parsing and the command-line entry point of
  `extract_links_headless.py`, and the `__main__` block of `main.py`.
- A reload while a run is in progress. `populate_table` clears the table with `setRowCount(0)`,
  which deletes the old rows' status cells and progress bars, while the old dicts can still sit in
  `remaining` or `active`. The model has no widgets: it keeps those records and lets them carry on
  as before (`PopulateKeeps`). It does not capture the errors the source then probably meets when
  it updates a deleted widget: one caught in the aria2 poll's `try`, which would leave the item
  active for good; one uncaught in the fallback poll; and one in `_start_next` after the pop, which
  would drop the item from both queues.
- The fallback worker's state. `Tasks.Worker` is the window's view of a `FallbackDownloader`. The
  cancel flag that `on_stop_all` sets there is not connected to a `FallbackDownloader.Run`, whose
  cancel is the `cancelAt` input.
- `IsSpace` covers the characters Python's `str.isspace()` accepts. The model has no other
  Unicode handling.
