# Search Lite: the search engine, modelled in Dafny

Search Lite is a CudaText plugin. It searches the files below a directory
for a substring, compared case-insensitively, and writes what it finds into
a result editor. A header line `<relative path>:` comes before the matches
of each file. Each match line reads ` <line number>: text`. A map from an
editor line to a file location lets a double click or Enter open the match.
The output is capped at 100 lines. A run can be cancelled, and a search
asked for while one runs is deferred.

The project models the engine of `__init__.py`:

- `paths.dfy`: `trim_start`, the POSIX basename rule of `is_hidden`,
  `os.path.join`, `str.split(os.sep)`, `DO_NOT_SEARCH`,
  `os.path.expanduser` and the trailing-separator rule for the search root.
- `filesystem.dfy`: the directory tree as a datatype and
  `enumerate_files_in_dir` as recursive functions returning the yielded
  files in order.
- `scanner.dfy`: `search_file_for_string`, with the size and hidden
  gates, the case-insensitive test and the read error that ends one file's
  scan.
- `report.dfy`: the specification of a run. `ScanFiles`/`ScanHits` follow
  the two loops of `search` over the walker's files and the scanner's
  hits. Checkpoints are numbered, and `cancelAt` names the first one at
  which `terminate_search` is seen set. `Conclude` applies the end of the
  `try` block and the two `except` handlers. A reference `Layout` describes every
  row a run could show: per file with hits, its header and then its
  matches. The lemmas prove that every run shows a prefix of that layout,
  within the cap, and that a cancelled run leaves nothing behind.
- `session.dfy`: `Command` as the class `SearchSession`, holding `memo`,
  `search_results`, `in_process`, `terminate_search`, the editor's caret,
  focus and read-only flag, the status label and the pending timer
  restarts. `Search` runs `search` with `while` loops. It is proved to
  leave exactly the state `Report.Run` describes.
  - User actions during a run arrive as an `Interruption`: the dialog
    closed, Enter with an empty field, or Enter starting another search.
    `Deliver` hands each one to the handler the dialog would call, among
    them `Search` itself, which then takes its in-process branch.
  - `GotoFile` and the key and close handlers complete the class.
- `text.dfy`: the string functions involved: `startswith`, `endswith`,
  `str.isspace`, `rstrip`, `strip`, `lower`, `in`, `str(n)`,
  `s.index(c)`.
- `wrappers.dfy`: `Option`.

Details of the code the model follows:

- A file of exactly 5 MiB is skipped: the gate is `size < 5 MiB`
  (`__init__.py:227-228`).
- The cap is checked against the editor's line count. That count includes
  the empty line the editor always keeps after the appended ones. A header
  and its first match are appended after one check. So a capped run holds
  99 or 100 lines, and a run never holds more than 100
  (`__init__.py:110-119`).
- A user action that no checkpoint sees before the run ends, such as a new
  search asked for during the scan of the last file with no hits, does not
  cancel that run. The run finishes normally.
- Enter with an empty field also sets `terminate_search`, so it stops a
  run in progress (`__init__.py:70-72`).
- Enter reaches the search only from the input (`__init__.py:65`). An
  Enter that interrupts a run therefore moves the focus off the result
  editor first, and the run ends with the input focused.

## Model

| member | source | states |
|---|---|---|
| Paths.TrimStart | __init__.py:12-13 | when `s` starts with `p` the result is what follows `p` (`p + r == s`); otherwise `s` unchanged; never longer than `s` |
| Paths.BaseName | __init__.py:18 | the basename is separator-free, ends the path, and is preceded by a separator when shorter than the path |
| Paths.BaseNameOfJoin | __init__.py:248-252 | the basename of `os.path.join(dir, name)` is `name`, so `is_hidden` on a joined path tests the entry's own name |
| Paths.JoinExtends | __init__.py:248 | a joined path starts with its directory and is longer than it unless the name is empty |
| Paths.Split | __init__.py:243 | `split(os.sep)` gives at least one piece and no piece holds a separator |
| Paths.SplitRoundTrip | __init__.py:243 | joining the pieces of `split(os.sep)` with the separator gives back the path |
| Paths.SplitUnique | __init__.py:243 | any separator-free pieces that join back to the path are exactly `split(os.sep)` of it |
| Paths.NormaliseRoot | __init__.py:94-95 | the root ends with `os.sep`, starts with the expanded path and is at most one character longer; a path already ending with `os.sep` is unchanged |
| Paths.NormaliseRootIdempotent | __init__.py:94-95 | normalising a normalised root changes nothing |
| Paths.ExpandUser | __init__.py:93 | a path not starting with `~` is unchanged, and so is one whose `~` or `~user` names no known home; a known home, with its trailing separators dropped, replaces the `~` or `~user` and the rest follows, and an expansion that would be empty is `/` |
| Paths.HomeOf | __init__.py:93 | a bare `~` names the process's own home; `~user` names that account's home exactly when the account is known |
| Paths.UserEnd | __init__.py:93 | the user part of `~user/...` ends at the first separator after the tilde, or at the end |
| FileSystem.Walk | __init__.py:240-245 | an excluded directory, or a node that is not a listable directory, yields nothing; every yielded entry is a regular file in a directory that is not excluded |
| FileSystem.WalkEntries | __init__.py:246-256 | every file the loop over a listing yields is a regular file in a directory that is not excluded |
| FileSystem.Visit | __init__.py:248-254 | every file one entry contributes is a regular file in a directory that is not excluded |
| FileSystem.WalkEntriesAppend | __init__.py:247 | the files of a listing are the files of its first entries followed by those of the rest |
| FileSystem.WalkEntriesAt | __init__.py:247-254 | depth-first order: the files of entry `k` come after those of the entries before it and before those after it |
| FileSystem.WalkYieldsListedFiles | __init__.py:249-250 | every regular file listed in a searched directory is yielded, hidden or not |
| FileSystem.PrunedSubtreeIgnored | __init__.py:242-254 | replacing whatever lies below a hidden or excluded sub-directory does not change what the walk yields |
| FileSystem.WalkBelow | __init__.py:248-254 | every yielded path and its directory start with the directory the walk started from |
| Scanner.ReadableLines | __init__.py:233-238 | the lines read are a prefix of the file: all of it without a read error or when the error lies past the end, and exactly the lines before the failing one otherwise |
| Scanner.MatchingLines | __init__.py:234-236 | exactly the lines containing the query, case-insensitively, in strictly increasing line order, each with its original text |
| Scanner.SearchFile | __init__.py:224-238 | nothing for a file of at least 5 MiB, a hidden file, or a non-file; otherwise every readable line containing the query and only those, as (zero-based index, line as read), strictly increasing |
| Scanner.ReadErrorKeepsEarlierHits | __init__.py:237-238 | a read error at line `k` only cuts the scan: the hits are those of the first `k` lines |
| Text.DropTrailing | __init__.py:122 | the longest suffix of characters satisfying the test is removed, and nothing else |
| Text.DropLeading | __init__.py:66-67 | the longest prefix of characters satisfying the test is removed, and nothing else |
| Text.StripEmpty | __init__.py:66-68 | a field is empty after `strip()` exactly when it holds only whitespace |
| Text.LowerChar | __init__.py:235 | an upper-case ASCII letter becomes the lower-case letter at the same place in the alphabet; every other character is unchanged |
| Text.LowerCharSame | __init__.py:235 | two characters lower-case alike exactly when they are equal or the two cases of one letter |
| Text.LowerSame | __init__.py:235 | two strings lower-case alike exactly when they have the same length and agree at each index up to the case of a letter |
| Text.LowerIdempotent | __init__.py:235 | lower-casing twice is lower-casing once |
| Text.ContainsIff | __init__.py:235 | `needle in hay` holds exactly when the needle occurs at some index |
| Text.NatToString | __init__.py:122 | `str(n)` is one or more decimal digits with no leading zero |
| Text.ParseNatToString | __init__.py:122 | reading back the digits of `str(n)` gives `n` |
| Text.NatToStringInjective | __init__.py:122 | distinct line numbers are written differently |
| Text.FirstIndexOf | __init__.py:128 | `s.index(c)`: the first index holding `c`, or the length when there is none |
| Text.FirstIndexOfAppend | __init__.py:128 | a prefix without `c` shifts the first `c` by its length |
| Report.Targets | __init__.py:102-107 | one target per yielded file, in walk order: target `k` carries the path of file `k` |
| Report.TargetsFaithful | __init__.py:102-107 | each target's relative path puts the root back in front to give its full path, and each hit is a line of its file containing the query |
| Report.Layout | __init__.py:104-124 | the reference layout has one row per header and per hit |
| Report.RowAtIn | __init__.py:104-124 | every layout row belongs to an existing file and hit, and a header only to a file with hits |
| Report.LayoutAt | __init__.py:115-124 | file `i`'s header sits at its start and its hit `j` at `j + 1` rows after |
| Report.StartTotal | __init__.py:102-124 | the rows of files before `i` and after `i` add up to the whole layout |
| Report.StartEndsAtMatch | __init__.py:102-124 | the rows of whole files end with a match row, or are empty |
| Report.LayoutOrdered | __init__.py:102-124 | the layout is strictly ordered by file, then header before hits, hits in scanner order |
| Report.OrderedUnique | __init__.py:115-119 | in a strictly ordered layout a row, and so a file's header, appears at most once |
| Report.HeaderThenFirstHit | __init__.py:115-124 | a header is always followed immediately by its file's first hit |
| Report.FirstHitAfterHeader | __init__.py:115-124 | a file's first hit always comes immediately after its header |
| Report.HeaderIffHits | __init__.py:107-119 | a file gets a header exactly when it has a hit |
| Report.EveryHitLaidOut | __init__.py:107-124 | every hit of every file has its row |
| Report.AppendNextRow | __init__.py:116-124 | appending the next layout row and its location keeps editor and map a prefix of the layout |
| Report.WriteHitShows | __init__.py:114-128 | writing the next hit appends exactly the next rows of the layout, with the caret where the first match line put it |
| Report.WriteHitLines | __init__.py:114-124 | writing hit `j` appends its header (if first) and match rows and their map entries, leaving the label alone |
| Report.WriteHitCaret | __init__.py:126-128 | the caret stays on the first match line whatever is written after it |
| Report.FirstRowHeader | __init__.py:115-119 | the first row of the output is a header |
| Report.ScanHitsShape | __init__.py:107-128 | however the hit loop ends, the output is a layout prefix within the cap ending at a match; running out of hits ends at the file's last row; the cap stops it at 99 or more lines, before the layout's end; a cancellation only if one was requested |
| Report.ScanHitsNext | __init__.py:108-128 | one turn of the hit loop keeps what `ScanHitsShape` states |
| Report.ScanHitsStops | __init__.py:108-112 | the three exits of the hit loop each satisfy what `ScanHitsShape` states |
| Report.ScanFilesShape | __init__.py:102-128 | the same for the file loop: exhausting the files shows the whole layout |
| Report.RunSummary | __init__.py:100-138 | every run holds at most 100 lines with a map entry for exactly each line; a cancelled run leaves editor and map empty and the caret at the start; any other run shows a prefix of the layout ending at a match; a completed one the whole layout and FINISHED; a capped one 99 or more lines, part of the layout, and the capped status; without a cancellation, fewer than 100 rows complete and more than 100 are capped |
| Report.HitsCancel | __init__.py:108 | a request at a checkpoint the uninterrupted hit loop reaches stops it with `TerminateSearch`; one at a checkpoint before or after those leaves the loop as if uninterrupted |
| Report.FilesCancel | __init__.py:102-108 | the same for the file loop, with both checkpoints of `search` |
| Report.RunCancellation | __init__.py:100-133 | a request at checkpoint `c` cancels the run exactly when the uninterrupted run reaches `c`; a later one leaves the run as if nothing were asked; a run with files reaches checkpoint 0 |
| Report.CappedStatusText | __init__.py:135 | the capped status reads "FINISHED, showing only 100 lines" |
| Report.MatchLineParts | __init__.py:122-128 | a match line starts with a space, shows `str(line + 1)` that reads back as `line + 1`, puts `s.index(':') + 2` at the end of its prefix, and ends with the right-stripped text |
| Report.HeaderLineParts | __init__.py:116 | a header line starts with `<` and gives back the relative path between `<` and `>:` |
| Report.CaretAtFirstHit | __init__.py:126-128 | once a match is shown, line 1 is the first hit of the first file with hits, and the caret stands at the start of that hit's text |
| Report.Navigate | __init__.py:33-41 | a location exactly when the map has an entry for the caret line, and then that entry |
| Report.NavigateShown | __init__.py:33-41 | with the keys written at lines 117 and 124, a shown line navigates to its file: a header to line 0, a match to its zero-based line; beyond the last line, to nothing |
| Session.CancelAt | __init__.py:103-108 | a checkpoint at which the loops see the flag set is named exactly when an interruption is given |
| Session.Deferred | __init__.py:79-83 | exactly the interruption that calls `search` again leaves one deferred search |
| Session.Root | __init__.py:93-95 | the root ends with the separator and, for a path without `~`, starts with the path as typed |
| Session.SearchSession.constructor | __init__.py:21-28 | an empty editor and map, nothing in progress, and the label READY that `run` gives it at line 167 |
| Session.SearchSession.Search | __init__.py:77-138 | while a run is in progress: only the flag is set and the search deferred, nothing else changes; otherwise the editor, map, caret and label become what `Run` specifies for the walker's files, and the run ends read-only and not in progress |
| Session.SearchSession.Begin | __init__.py:85-101 | a run starts in progress, writable, focused, with editor and map empty, the root normalised and the flag cleared |
| Session.SearchSession.ScanFileList | __init__.py:102-107 | the file loop stops exactly where `ScanFiles` says, in the state it gives |
| Session.SearchSession.ScanNextFile | __init__.py:102-107 | one turn of the file loop is one step of `ScanFiles` |
| Session.SearchSession.ScanFile | __init__.py:107-128 | the hit loop stops exactly where `ScanHits` says, in the state it gives |
| Session.SearchSession.ScanNextHit | __init__.py:108-128 | one turn of the hit loop is one step of `ScanHits`: stop on the flag, stop at the cap, or write the hit |
| Session.SearchSession.WriteMatch | __init__.py:114-128 | header (first hit only) and match appended with their map keys, caret set on editor line 1, as `WriteHit` |
| Session.SearchSession.Finish | __init__.py:130-138 | the end of the `try` block, the `except` handlers and `finally` leave what `Conclude` gives, and the session within the cap |
| Session.SearchSession.ConcludedValid | __init__.py:110-138 | after a run the editor is within the cap and the map is empty or covers exactly its lines |
| Session.SearchSession.Deliver | __init__.py:43-83 | an interruption at this checkpoint sets the flag, and also clears the map, posts the prompt, or defers the search; an Enter moves the focus to the input first, as line 65 needs; otherwise nothing changes |
| Session.SearchSession.OnDialogClose | __init__.py:43-46 | the map is cleared and the flag set if a run is in progress |
| Session.SearchSession.RejectEmpty | __init__.py:70-72 | the label says "Please enter something" and any run is asked to stop |
| Session.SearchSession.GotoFile | __init__.py:33-41 | the location for the caret line, or nothing; in a valid session, found only for a line the editor holds |
| Session.SearchSession.OnDoubleClick | __init__.py:48-49 | the same lookup as `GotoFile` |
| Session.SearchSession.PlaceCaret | __init__.py:36 | the caret the lookup reads moves, and nothing else changes |
| Session.SearchSession.OnKeyDown | __init__.py:51-75 | other keys are passed on; Tab moves focus from the editor to the input and is consumed only then; Enter is always consumed: from the editor it looks up the caret line, from the input it searches with both fields stripped, or shows the prompt if one is empty |
| Session.SearchSession.OnTimer | __init__.py:82 | the oldest deferred search runs with the query and path it was given, as `Search` states |
| Session.SearchSession.OnExit | __init__.py:258-259 | the flag is set and nothing else changes |

## Left out

- User interface: the dialog, its controls and layout in `run`
  (`__init__.py:140-222`), the lexer property of the result editor and
  focus changes by mouse or by the host's default Tab handling. A Tab
  outside the result editor is passed on (`__init__.py:56-63`); the model
  leaves the focus off the result editor there.
  - The two input fields are parameters of `OnKeyDown`: the text they hold.
  - The constructor starts with the result editor not focused.
- Host scheduling: `app_idle()` and the 50 ms one-shot timer.
  - `deferred` stands for the started timers, and `OnTimer` for one firing.
  - A run is atomic in the model. A user action during the run is given as
    one `Interruption`, delivered at the checkpoint where the flag would
    first be seen.
  - An interruption that no checkpoint reaches is delivered after the loops.
  - Tab and Enter in the result editor touch nothing a run reads, so they
    are not interruptions.
  - Only one action per run is modelled.
  - The checkpoints include the one before a file's second or later hit.
    No `app_idle` runs between two hits of one file (`__init__.py:107`,
    `__init__.py:225`), so no user action lands there in the source. The
    proved properties hold for every checkpoint, these included.
- File I/O: `os.listdir`, `os.path.isfile`, `open`, BOM detection and
  UTF-8 decoding. A file is its size in bytes, its lines as decoded text
  and the line at which reading fails.
- `os.path.getsize` raising for a file that vanished after listing is not
  modelled. In the source that error escapes `search` after the `finally`
  block.
- `is_hidden` on Windows (`__init__.py:16-17`): the file-attribute bit is
  platform I/O. Only the POSIX basename rule and `/` as separator are
  modelled.
- `Scanner.SearchFile`: the size gate `getsize / (1024 * 1024) < 5` is a
  float comparison in the source. It is modelled as `size < 5 * 1024 * 1024`,
  which agrees for every size below 2^53 bytes.
- `Text.LowerChar`: lower-cases ASCII letters only, because Unicode case
  tables are not modelled.
- Listing errors other than the three `enumerate_files_in_dir` catches
  (`__init__.py:255`), such as ELOOP, ENAMETOOLONG or EIO from
  `os.listdir`, are not modelled. In the source they escape `search`
  after the `finally` block. `Unlistable` stands only for the caught
  errors.
- Symbolic links: the tree is a finite datatype. A link cycle is not
  modelled; on Linux its walk ends when the growing path makes
  `os.listdir` raise ELOOP, an error of the kind above.
- Editor behaviour the source relies on:
  - `get_line_count` counts one empty line after the appended lines.
  - `set_text_all('')` puts the caret at the start.
  - The main editor's `file_open` and `set_caret` in `goto_file` are
    outside the model. `GotoFile` returns the location they would be given.
- `Session.SearchSession.Search`: contracts that use `old(...)` describe
  the state change. The properties users see are proved about `Report.Run`
  (`RunSummary`, `NavigateShown`, `CaretAtFirstHit`).
