# hackle-box workspace model

hackle-box runs a small web service beside a cloned git checkout in
`/tmp/hackle-code`. The service lists the files of the checkout as a nested
tree, annotates each file with its git status, reads and writes single
files, and supervises one "dev server" child process. This project models
the parts of it that hold logic, and proves properties of that model.

- `wrappers.dfy`: module `Wrappers`, the `Option` and `Result` types.
- `pystr.dfy`: module `PyStr`, the Python `str` operations the code relies on, with Python's semantics:
  - `split(sep)` and the argument-less `split()`, with Python's whitespace set;
  - `strip(chars)`;
  - the single left-to-right pass of `replace`;
  - `filter(bool, ...)` over strings;
  - decimal rendering of integers.
- `json.dfy`: module `Json`, the dict/list/string/int values the handlers build, and lookup along a key path.
- `files.dfy`: module `Files`, the pure parts of `app/files.py`:
  - the porcelain status parser with its fixed code table (`get_changes`);
  - the ignored-path set (`get_ignored`);
  - the size formatter (`_fmt_size`);
  - the MIME fallback (`_mime_type`);
  - the path sanitiser (`fs_path`), as written and corrected.
- `tree.dfy`: module `FileTree`, `file_tree`:
  - the checkout is an abstract finite tree (`FsNode`);
  - the recursive walk is a specification function (`WalkDir`) plus the loop that builds the dict (`FileTreeDir`);
  - the deleted-path graft moves a cursor down nested dicts (`Insert`, `Graft`, `GraftDeleted`);
  - the whole build is a function (`FileTreeOf`) plus the method that runs it (`BuildFileTree`).
- `http.dfy`: module `Http`:
  - the decision rules of `file_content`;
  - the dev-server slot `app[DEV_SERVER]`, as the class `Supervisor` whose methods are the four handlers. Each method is proved equal to a pure step function (`StartStep`, `StopStep`, `RestartStep`, `StatusStep`), and the lemmas are stated over those step functions and over whole request sequences (`Run`).

The git commands, the clock, the spawned process and the library lookups are
not run. Their results are parameters:
- the text `git status --porcelain -uall` and `git ls-files -o -i --exclude-standard` print;
- the filesystem snapshot;
- the URL builder and the MIME guess (opaque functions);
- the process id, the output chunks `read(1000)` returns and the outcome of each bounded `wait` (`None` for a timeout);
- the integer clock reading;
- the UTF-8 decoder (an opaque function that may fail).

## Model

| member | source | states |
|---|---|---|
| Files.ParseLine | app/files.py:59-60 | A line parses only if `split()` yields exactly two fields; otherwise it is a `NotTwoFields` error, in both directions. A parsed line has a whitespace-free path and is never `unchanged`. |
| Files.PorcelainLine | app/files.py:48-60 | For an `XY path` line, the code left after blanks are dropped is looked up in the table. `M`, `A`, `D`, `R` and `??` map to their kinds; any other code, such as `MM`, is an unknown-code error rather than a default. |
| Files.RenameLineRejected | app/files.py:59-60 | A staged rename line `R  old -> new` has four fields, so it fails to unpack; it never yields `renamed`. |
| Files.ParseAll | app/files.py:60 | Parsing succeeds iff every line parses. The entries are the lines' parses, in order. An error is the error of the first line that fails. |
| Files.ToDict | app/files.py:60 | The dict comprehension, one insertion per entry in order. Its properties are stated by `ToDictKeys`, `ToDictOrder`, `ToDictValues` and `ToDictLastWins`. |
| Files.ToDictKeys | app/files.py:60 | The dict comprehension's keys are exactly the entries' paths, and its key order lists each of them once. |
| Files.ToDictOrder | app/files.py:60 | The key order is first-insertion order: for keys at positions a < b, an entry naming the key at a comes before every entry naming the key at b. |
| Files.ToDictValues | app/files.py:60 | Every value in the dict is the kind some entry gave that key. |
| Files.ToDictLastWins | app/files.py:60 | The last entry naming a path decides that path's kind. |
| Files.GetChanges | app/files.py:57-60 | `get_changes` over the non-empty lines succeeds iff all of them parse; otherwise it fails with the first failing line's error. |
| Files.GetChangesKeys | app/files.py:57-60 | On success, the key order lists each key once, and every line's path is a key. |
| Files.GetChangesOrder | app/files.py:57-60 | On success, the keys iterate in the order in which the status lines first name their paths; this is the order the deleted-path graft follows. |
| Files.GetChangesValues | app/files.py:57-60 | On success, every key is the path of some line and has that line's kind; `unchanged` never appears. |
| Files.GetChangesLastWins | app/files.py:60 | On success, the last line naming a path decides that path's kind. |
| Files.GetIgnored | app/files.py:63-65 | The empty string is never in the ignored set, and no member contains a line break. |
| Files.IgnoredRoundTrip | app/files.py:63-65 | For newline-free paths joined by newlines, the ignored set is exactly those paths minus the empty one. |
| Files.RoundHalfEven | app/files.py:125-127 | The result is the integer nearest to the quotient, with ties going to the even neighbour. |
| Files.OneDecimalValue | app/files.py:125-127 | A one-decimal rendering is digits, a point and one digit, and it reads back as the tenths it came from. |
| Files.FmtSize | app/files.py:119-127 | `_fmt_size`. Its units, digits and rounding are stated by `FmtSizeUnits` and the example lemmas below. |
| Files.FmtSizeUnits | app/files.py:119-127 | `''` gives `''`. Below 1024 the result is the exact decimal digits plus `B`. It ends in `KB` iff 1024 <= n < 1024², and in `MB` iff n >= 1024². KB and MB values show the nearest tenths. |
| Files.FmtSizeByteExamples | app/files.py:119-123 | `''` gives `''`, 0 gives `0B`, and 1023 gives `1023B`. |
| Files.FmtSizeOneKilobyte | app/files.py:124-125 | 1024 gives `1.0KB`. |
| Files.FmtSizeTieToEven | app/files.py:124-125 | 1280 (1.25 KB, a tie) gives `1.2KB`: the tie goes to the even tenth. |
| Files.FmtSizeKilobyteCeiling | app/files.py:124-125 | 1048575 gives `1024.0KB`: it rounds up within the KB unit rather than switching to MB. |
| Files.FmtSizeMegabyteExamples | app/files.py:126-127 | 1048576 gives `1.0MB`, and 1572864 gives `1.5MB`. |
| Files.MimeType | app/files.py:130-131 | The result is never empty. It is the guess when the guess is a non-empty type, and `text/plain` otherwise. |
| Files.FsRelative | app/files.py:34-35 | The relative part is no longer than the request path, and it never begins or ends with `.` or `/`. |
| Files.PathComponents | app/files.py:34-35 | pathlib's parse of a relative path keeps exactly the pieces that are neither empty nor `.`. |
| Files.PathComponentsAppend | app/files.py:34-35 | The parse of a concatenation is the parses of its halves in order, so pathlib keeps the order of the pieces. |
| Files.PathComponentsCount | app/files.py:34-35 | The parse keeps every piece other than `""` and `.` as often as it occurs, and drops those two entirely. |
| Files.FsPath | app/files.py:34-35 | No component below the checkout directory is empty, `.`, or contains `/`. Which components there are, and in what order, follows from `PathComponentsAppend` and `PathComponentsCount` over the `/`-split of the sanitised path; `FsPathKeepsParentStep` pins one example. |
| Files.StripKeepsNoDotTriple | app/files.py:35 | `strip('./')` cannot create a run of three dots. |
| Files.FsPathNoParentWithoutTriple | app/files.py:34-35 | For a request path without three adjacent dots, no component is `..`. |
| Files.FsRelativeKeepsDots | app/files.py:35 | `a/.../b` sanitises to `a/../b`. |
| Files.FsPathKeepsParentStep | app/files.py:34-35 | `a/.../b` gives the components `a`, `..`, `b`, which is a step back out of `a`. |
| Files.CollapseDots | app/files.py:35 | Corrected collapse: the result has no two adjacent dots. |
| Files.FsPathFixed | app/files.py:34-35 | Corrected `fs_path`: no component is empty, `.`, `..`, or contains `/`. |
| Files.FsPathFixedAgrees | app/files.py:34-35 | For a request path without three adjacent dots, the corrected sanitiser gives the same components as the code as written: the correction changes only the faulty case. |
| PyStr.Split | app/files.py:59 | `s.split(sep)` returns at least one piece, and no piece contains the separator. Joining the pieces gives back `s`. |
| PyStr.SplitJoin | app/files.py:64-65 | Round trip: splitting separator-free pieces joined by the separator gives the pieces back. |
| PyStr.NonEmpty | app/files.py:59 | `filter(bool, ...)` keeps exactly the non-empty strings. |
| PyStr.NonEmptyMultiset | app/files.py:59 | The filter keeps each non-empty string as often as it occurs: its multiset is the input's with the empty string removed. |
| PyStr.NonEmptyAppend | app/http.py:120 | Filtering a concatenation filters each half and keeps them in order, so the filter keeps the input's order. |
| PyStr.Words | app/files.py:59 | Every field of `split()` is non-empty and whitespace-free. |
| PyStr.WordsJoin | app/files.py:59 | Round trip: `' '.join(ws).split() == ws` for whitespace-free words. |
| PyStr.WordsJoinBlanks | app/files.py:59 | `' '.join(ws).split()` is `ws` without its empty strings, for whitespace-free strings: runs of blanks give no empty fields. |
| PyStr.LStrip | app/files.py:35 | `lstrip(chars)` is a suffix of the input, every dropped character is in `chars`, and its first character is not. |
| PyStr.RStrip | app/files.py:35 | `rstrip(chars)` is a prefix of the input, every dropped character is in `chars`, and its last character is not. |
| PyStr.Strip | app/files.py:35 | `strip(chars)` is a middle slice of the input: everything dropped before or after it is in `chars`, and neither of its own ends is in `chars`. |
| PyStr.Replace | app/files.py:35 | `str.replace` as one left-to-right pass. For `'..'` to `'.'`, its properties are stated by `ReplaceDotsShape`, `ReplaceDotsNoPair` and `ReplaceSinglePass`. |
| PyStr.ReplaceDotsShape | app/files.py:35 | `replace('..', '.')` never lengthens its input and keeps its first and last characters. It is the identity when there is no `..`. |
| PyStr.ReplaceDotsNoPair | app/files.py:35 | Without three adjacent dots in the input, `replace('..', '.')` leaves no `..`. |
| PyStr.ReplaceSinglePass | app/files.py:35 | The pass does not overlap and does not repeat: `a/.../b` becomes `a/../b`. |
| PyStr.Decimal | app/files.py:123 | The rendering of a count is non-empty decimal digits with no leading zero. |
| PyStr.DecimalRoundTrip | app/files.py:123 | The rendering of n reads back as n. |
| FileTree.FileEntry | app/files.py:84-91 | The entry of a walked file. Its fields are stated by `WalkFile`. |
| FileTree.WalkDir | app/files.py:72-92 | `_file_tree` as a specification. What it keeps and where is stated by `FileTreeDir`, `WalkGet`, `WalkFile` and `WalkDirectory`. |
| FileTree.FileTreeDir | app/files.py:72-92 | The loop over a directory's children gives keys that are exactly the kept children. These are directories not named `.git`, and files whose relative path is not ignored. Each value is what the walk makes of that child. |
| FileTree.WalkGet | app/files.py:72-92 | Following a path on disk into the walked tree reaches what the walk makes of that node iff every step along the path is kept, and reaches nothing otherwise. |
| FileTree.KeptAlongIff | app/files.py:75-82 | Every step is kept iff no directory step is `.git` and the file at the end, if there is one, is not ignored. |
| FileTree.WalkFile | app/files.py:80-91 | A file outside `.git` directories and not ignored sits at its nested path. Its entry has `file_path` set to the relative path, `status` set to the reported kind or `unchanged`, `size_raw`, `size_human` from the formatter, `url`, and `mime_type` from its name. Any other file has no entry. |
| FileTree.WalkDirectory | app/files.py:75-78 | Every directory outside `.git` becomes a dict at its nested path, even an empty one, and its keys are exactly its kept children. A `.git` directory is never entered. |
| FileTree.DeletedEntry | app/files.py:107-112 | The synthetic entry of a deleted path. Its fields are stated by `GraftReaches`. |
| FileTree.Insert | app/files.py:98-112 | The cursor walk for one deleted path. Its behaviour is stated by `InsertSpec`, `InsertElsewhere` and `InsertErrors`. |
| FileTree.InsertSpec | app/files.py:98-107 | A graft succeeds iff the cursor never stands on a string or number. Then the leaf is at the path, and every value on the way is a dict. |
| FileTree.InsertElsewhere | app/files.py:98-112 | A graft leaves every path that parts ways with the grafted one unchanged. |
| FileTree.InsertErrors | app/files.py:99-107 | A graft can fail only with the cursor's type error. |
| FileTree.Graft | app/files.py:96-112 | The loop over the status dict as a specification. Its behaviour is stated by `GraftDeleted`, `GraftElsewhere`, `GraftReaches` and `GraftErrors`. |
| FileTree.GraftDeleted | app/files.py:96-112 | The loop over the status dict in key order equals the graft specification: one insertion per deleted path, stopping at the first failure. |
| FileTree.GraftElsewhere | app/files.py:96-112 | The graft changes nothing at a path that parts ways with every deleted path. |
| FileTree.GraftReaches | app/files.py:96-112 | After the graft, a deleted path that no later deleted path overlaps holds exactly its synthetic entry. That entry has `file_path`, `status` set to `deleted`, `url` and `mime_type`, and no size keys. |
| FileTree.GraftErrors | app/files.py:96-112 | The graft loop can fail only with the cursor's type error. |
| FileTree.FileTreeOf | app/files.py:68-113 | The build fails with a status error iff `get_changes` fails. |
| FileTree.BuildFileTree | app/files.py:68-113 | Parse the status, read the ignored set, walk, then graft: the result equals the specification function. |
| FileTree.FileTreeDeleted | app/files.py:96-112 | In the finished tree a deleted path holds its synthetic entry whether or not it is ignored (the graft never consults the ignored set), provided later deleted paths do not overlap it. |
| FileTree.FileTreeWalkedFile | app/files.py:68-113 | In the finished tree, a file outside `.git`, not ignored and apart from every deleted path keeps the entry the walk gave it. |
| Http.FileContent | app/http.py:39-58 | A directory gets 403 before the method is looked at, and nothing is written. GET gives 200 with the file's bytes, or 404 when the file or a directory on the way is missing; below a regular file the read's `NotADirectoryError` escapes and the server answers 500. POST or PUT without a `content` field gives 400 and no write. With one, it writes iff the parent directory exists, answering 200 if the file existed before the write and 201 if not; otherwise the write raises and the server answers 500 with nothing written. Any other method gets no response. |
| Http.StartStep | app/http.py:69-84 | `dev_server_start` on the slot. Its outcomes are stated by `StartRefusesIffRunning`. |
| Http.StopStep | app/http.py:87-98 | `dev_server_stop` on the slot. Its outcomes are stated by `StopOutcomes`. |
| Http.RestartStep | app/http.py:101-106 | `dev_server_restart` on the slot. Its outcomes are stated by `RestartOutcomes`. |
| Http.StatusStep | app/http.py:109-134 | `dev_server_status` on the slot. Its reply and new slot are stated by `StatusWithoutRecord` and `StatusWithRecord`. |
| Http.ExitStep | app/http.py:71 | The event loop setting `returncode` on a running child. `NoLiveProcessDropped` and `LiveProcessKept` show that only such an exit, or a stop, restart or status that observes one, ends a running process's record. |
| Http.Supervisor.constructor | app/http.py:141-143 | A new application has no dev-server record. |
| Http.Supervisor.Start | app/http.py:69-84 | The new slot and the reply are those of `StartStep`. |
| Http.Supervisor.Stop | app/http.py:87-98 | The new slot and the reply are those of `StopStep`. |
| Http.Supervisor.Restart | app/http.py:101-106 | The new slot and the reply are those of `RestartStep`, which runs stop and then start on the shared slot. |
| Http.Supervisor.Status | app/http.py:109-134 | Building the reply with `update` and `pop` gives the slot and reply of `StatusStep`. |
| Http.Supervisor.ChildExited | app/http.py:71 | The event loop records a running child's exit code; nothing else changes. |
| Http.StartRefusesIffRunning | app/http.py:69-84 | `start` gives 403 iff a record exists whose process has not exited, and then the slot is unchanged. Otherwise the slot is a fresh record whose log is the first chunk and whose start is now, and the reply is a 307 to the status page. |
| Http.StopOutcomes | app/http.py:87-98 | `stop` gives 403 iff nothing is running, and then the slot is unchanged. A timed-out wait gives 500 and keeps the same record, with its process still unexited but signalled. A completed wait gives a 307 and keeps the same record, with the same pid, log and start, its process signalled and its `returncode` set to the code. |
| Http.RestartOutcomes | app/http.py:101-106 | `restart` never gives 403. It gives 500 iff a running process outlives the wait, and then nothing is started. Otherwise the new process is recorded and the reply is a 307. |
| Http.StatusWithoutRecord | app/http.py:112-116 | With no record, the reply is exactly `{status: not_running, start_url}` and the slot is unchanged. |
| Http.StatusWithRecord | app/http.py:116-133 | With a record, the chunk is appended to the log even when decoding then fails. The reply has `log` (the non-empty lines of the whole decoded log), `start`, and `duration = now - start`. Its status is `running` iff no exit is known; `start_url` and `returncode` are present iff an exit is known. An exited process is `terminated` iff its code is non-zero, else `finished`. |
| Http.LogLinesAreLines | app/http.py:120 | The reply's log holds exactly the non-empty `\n`-separated pieces of the text. |
| Http.LogLinesRoundTrip | app/http.py:120 | A log written as newline-free lines joined by `\n` is reported as exactly its non-empty lines, in the order written and with repeats kept. |
| Http.NoLiveProcessDropped | app/http.py:69-134 | No single request that does not observe the exit replaces or loses a running process; its log only grows. |
| Http.LiveProcessKept | app/http.py:69-134 | Over any sequence of requests in which no exit is reported, the dev server that was running stays recorded and running, keeps its start, and its log only grows. |
| Http.LogOnlyGrows | app/http.py:118 | Without a start or restart, the same process stays recorded and its log only grows. |
| Http.StartStopStatus | app/http.py:69-133 | From an empty slot, start, a stop whose wait completes, and a status request give 307, 307 and 200. The reply is `terminated` or `finished` after the code, with `returncode`, `start_url` and the elapsed duration. |

## Left out

- The git subprocesses (`git_run`, `setup`: `rmtree`, `mkdir`, `clone`, `chdir`): their standard output is a parameter of the parsers.
- Git's quoting of unusual paths in porcelain output: a quoted path is treated as its literal text.
- The real directory walk and `stat`:
  - the checkout is a finite `FsNode` tree of directories and sized files;
  - symlinks, special files and permission errors are not modelled;
  - the order of `iterdir` has no effect, since sibling names are distinct.
- `mimetypes.guess_type` and the router's URL builder: opaque function parameters.
- `read_file` and `write_file`: `file_content` receives what the sanitised path names on disk (`FileState`: nothing in an existing directory, a directory, a regular file, nothing below a missing directory, or nothing below a regular file) and returns the bytes it would write. Other `OSError`s of the read or the write (permissions, a full disk) are not modelled. That `FileState` is not derived from `FsPath`, so the model does not connect `file_content`'s disk access to the path sanitiser. pathlib's own resolution of the final path (including `..`) is not modelled.
- Http.FileContent: form fields are given already encoded. A non-text field, whose `.encode()` would raise, is not modelled.
- Files.FmtSizeUnits: the `KB` and `MB` branches are modelled as exact round-half-even of the quotient. This matches Python's float formatting only while the size is exactly representable (below 2^53 bytes).
- Files.FsPath: models the components pathlib keeps below the checkout directory. It does not model how the operating system resolves a `..` component.
- The `index` and `tree` handlers, `api_response` and `json.dumps`: serialisation and routing. The tree and status replies are modelled as the `Json` values they serialise.
- Interleaving of concurrent requests: each handler is atomic in the model. The check-then-spawn window in `dev_server_start` is not represented.
- asyncio process spawning, `read(1000)` and `wait_for` timeouts:
  - the pid, the chunks and each wait's outcome are parameters;
  - the 0.1 s wait on a process whose exit is already known returns that code;
  - the model does not bound a chunk at 1000 bytes.
- `timestamp()` is a float of seconds; the model uses an integer clock.
- UTF-8 decoding of the log: an opaque function that may fail. A failure is the server's own 500, after the chunk has been appended.
- `control.py` (container orchestration and polling) and `main.py` (command line and logging): no logic of their own.

## Findings

| source | as written | input that shows it | evidently intended | confidence | as-written member | corrected member |
|---|---|---|---|---|---|---|
| app/files.py:35 | `strip('./')` followed by one non-overlapping pass of `replace('..', '.')`, so a run of three dots becomes `..` | `a/.../b` gives the components `a`, `..`, `b`; `a/.../.../.../etc/passwd` gives `a/../../../etc/passwd` below `/tmp/hackle-code`, which leaves the checkout | no component of the sanitised path is `..`, so a request cannot step outside the checkout | high, not executed | Files.FsPathKeepsParentStep | Files.FsPathFixed |
