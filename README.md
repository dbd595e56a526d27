# qtile_dock in Dafny

A model of the three sequential kernels of `qtile_dock`, a launcher dock for
the Qtile window manager, with sockets, Qt and the real filesystem taken away:

- **Desktop-entry discovery** (`desktop_files.py`). This reads `.desktop`
  files in the freedesktop.org Desktop Entry format.
  - The text is split into sections on every `"\n["`.
  - Each section's first `Name`/`Name[..]`, `Exec` and `Icon` line is picked
    out.
  - The icon name is resolved by a first-match search over six ordered icon
    roots.
  - Applications are filtered by case-insensitive substring search terms.
  - The filesystem is an input value (`Paths.FileSystem`): the `os.walk`
    output of each top directory, the contents of each readable file, and the
    home directory.
  - `find_icon_path`, `parse_desktop_file` and `get` are loops in the
    original. They are methods of the class `Discovery.DesktopFiles`, each
    proved equal to a recursive specification function. The properties are
    proved about those functions.
- **Control commands and the single instance** (`driver.py`).
  - The per-connection dispatch of `"toggle"` / `"stop"` / anything else.
  - The accept loop that polls the process-wide stop flag.
  - The liveness probe on the control port (44947).
  - The `call` and `launch` decisions built on that probe.
  - Start-up of the authority: the dock built over the scan and shown once
    when asked.
- **The dock** (`ui.py`), as the class `Ui.Dock`.
  - Which applications become buttons.
  - The selection ring under Left/Right, using Python's non-negative `%`.
  - The highlight of the selected button.
  - Visibility.
  - The argument vector `launch_app` hands to `Popen`.

Python's `str.split()`, `str.strip()`/`isspace()` whitespace, `lower()`,
`os.path.join`, `os.path.splitext` and `os.path.expanduser` are written out in
`Text` and `Paths`. The three regular expressions become line predicates in
`Entries`.

Where the code and its design description disagree, the model follows the
code:

- A document with no non-blank section makes `parse_desktop_file` raise
  `IndexError` (`sections[0]`). The model returns `Failure(NoSections)`.
- An unreadable `.desktop` file, or one with no section, aborts `get`. The
  exception is not caught, so the whole scan fails (`AppScan.ScanError`). The
  scan is not best-effort.
- A directory that does not exist is skipped, because `os.walk` yields
  nothing for it.
- The second connect in `call` is not guarded, so a failure there escapes.
- `handle_client` calls `toggle_visibility` directly from the handler thread
  rather than through a signal.

## Model

| member | source | states |
|---|---|---|
| Text.Lower | desktop_files.py:60 | `lower()` for ASCII letters: same length, each upper-case ASCII letter mapped to its lower-case one, everything else kept |
| Text.LowerIdempotent | desktop_files.py:60 | lower-casing twice is lower-casing once, so terms lowered in the constructor compare correctly with lowered names |
| Text.IsBlank | desktop_files.py:45 | defines `s.strip() == ""`: every character is Python whitespace (no contract of its own; used by `Entries.Bracketed` and `Entries.ParseFailsIff`) |
| Text.Contains | desktop_files.py:83 | defines `t in s` for strings by recursion: `t` is a prefix of `s` or of a suffix of it (no contract of its own; `ContainsAt` and `ContainsWhere` state its meaning) |
| Text.ContainsAt | desktop_files.py:83 | `t` occurring at any index of `s` makes `t in s` true |
| Text.ContainsWhere | desktop_files.py:83 | conversely, when `t in s` holds, `t` occurs at the returned index of `s` |
| Text.SplitWs | ui.py:84 | defines `str.split()`: skip whitespace, take the longest whitespace-free word, repeat (no contract of its own; `SplitWsTokens` and `SplitWsJoinSpaced` state its meaning) |
| Text.SplitWsTokens | ui.py:84 | every token of `str.split()` is non-empty and holds no whitespace |
| Text.SplitWsJoinSpaced | ui.py:84 | round trip: `split()` of whitespace-free tokens joined with spaces gives back exactly those tokens |
| Paths.Join | desktop_files.py:21 | `os.path.join(a, b)` ends with `b`, and starts with `a` when `b` is relative |
| Paths.JoinBaseName | desktop_files.py:21 | the last component of `join(dir, file)` is `file` |
| Paths.SplitExt | desktop_files.py:19 | `os.path.splitext`: root followed by ext is exactly the path |
| Paths.SplitExtShape | desktop_files.py:19 | a non-empty ext starts with a dot, holds no other dot and no `/`, so it begins at the last dot of the last component; that component has a non-dot character before the ext |
| Paths.RFindIsLast | desktop_files.py:19 | `rfind`: no occurrence of the character lies after the index returned |
| Paths.RStripSlash | desktop_files.py:11-13 | the home directory as `expanduser` uses it: a prefix with no trailing `/`, and only `/` was removed |
| Paths.ExpandUser | desktop_files.py:66-68 | defines `expanduser("~" + rest)` as the home directory without trailing slashes, then `rest` (no contract of its own; `ExpandUserShape` states its meaning) |
| Paths.ExpandUserShape | desktop_files.py:66-68 | the expansion ends with `rest`, and what comes before it is a prefix of the home directory with no trailing `/` |
| Paths.Walk | desktop_files.py:17 | a top directory that does not exist walks to nothing |
| Icons.IconDirs | desktop_files.py:7-14 | the six icon roots, in priority order |
| Icons.IconFileMatches | desktop_files.py:19-20 | defines the per-file test: `splitext(file)` has root equal to the icon name and extension `.svg`, `.png` or `.xpm` (no contract of its own; `IconFileMatchesIff` states its meaning) |
| Icons.FirstInFiles | desktop_files.py:18-21 | defines the scan of one directory's files in listing order, returning at the first hit (no contract of its own; `FirstInFilesIff`, `FirstInFilesNoneIff` and `FoundInFiles` state its meaning) |
| Icons.FirstInWalk | desktop_files.py:17-21 | defines the search over one walk, directory by directory (no contract of its own; `WalkNoneIff`, `EarlierDirectoryWins` and `FoundInWalk` state its meaning) |
| Icons.FirstInRoots | desktop_files.py:16-21 | defines the search over the roots in list order (no contract of its own; `EarlierRootWins` states its meaning) |
| Icons.IconLookup | desktop_files.py:6-22 | defines `find_icon_path` as the search over the six roots (no contract of its own; `IconLookupNoneIff` and `FoundIconIsMatchingFile` state its meaning) |
| Icons.IconFileMatchesIff | desktop_files.py:19-20 | a file matches exactly when it is the icon name followed by `.svg`, `.png` or `.xpm` (case-sensitive), and the name is not made of dots only |
| Icons.MatchIsNamePlusExt | desktop_files.py:19-20 | a matching file is the name plus one of the three extensions, and the name is not made of dots only |
| Icons.NamePlusExtMatches | desktop_files.py:19-20 | the name plus one of the three extensions matches, when the name is not made of dots only |
| Icons.FirstInFilesIff | desktop_files.py:18-21 | for any file test, within one directory the result is the joined path of the first file passing it, and nothing else |
| Icons.FirstMatchFound | desktop_files.py:18-21 | the first matching file of a directory is the one returned |
| Icons.FirstInFilesNoneIff | desktop_files.py:18-22 | for any file test, a directory yields nothing exactly when none of its files passes it |
| Icons.EarlierRootWins | desktop_files.py:16-21 | a match under an earlier icon root beats any match under a later one |
| Icons.EarlierDirectoryWins | desktop_files.py:17-21 | within one root, the earlier directory in walk order wins |
| Icons.IconLookupNoneIff | desktop_files.py:16-22 | `None` exactly when no file of any directory of any root matches |
| Icons.WalkNoneIff | desktop_files.py:17-22 | a walk yields nothing exactly when no file of it matches |
| Icons.FoundIconIsMatchingFile | desktop_files.py:16-21 | a returned path is `join(dirpath, file)` for a matching file of some walk step of some root |
| Icons.FoundInWalk | desktop_files.py:17-21 | a walk's result comes from one of its directories |
| Icons.FoundInFiles | desktop_files.py:18-21 | a directory's result is the first matching file, joined onto its path |
| Entries.SplitSections | desktop_files.py:44 | `re.split(r'\n\[')`: at least one piece, and the first piece is a prefix of the text |
| Entries.SplitSectionsJoin | desktop_files.py:44 | the pieces rejoined with `"\n["` give back the text, and no piece contains the separator |
| Entries.SplitAfterPiece | desktop_files.py:44 | a separator-free piece followed by `"\n["` splits off as the first piece |
| Entries.SplitNoSep | desktop_files.py:44 | text without the separator is one piece |
| Entries.JoinSectionsSplit | desktop_files.py:44 | separator-free pieces joined with `"\n["` split back into exactly those pieces |
| Entries.Bracketed | desktop_files.py:45 | never more sections than pieces, and no sections exactly when every piece is blank |
| Entries.BracketedShape | desktop_files.py:45 | every section starts with `[` and is non-blank after it |
| Entries.Lines | desktop_files.py:26-29 | the lines of a section (MULTILINE `^`/`$`): at least one, and the first is a prefix of the section |
| Entries.LinesJoin | desktop_files.py:26-29 | round trip: the lines rejoined with newlines give back the section, so every line of it is seen by the patterns |
| Entries.JoinLinesSplit | desktop_files.py:26-29 | round trip the other way: newline-free lines joined with newlines split back into exactly those lines |
| Entries.LinesHaveNoNewline | desktop_files.py:26-29 | no line contains a newline |
| Entries.KeyValue | desktop_files.py:28-29 | `^Exec=(.*)$` / `^Icon=(.*)$` on one line: a value exactly when the line starts with `key=`, and the line is `key=` + value |
| Entries.LastCloseEq | desktop_files.py:26-27 | the position of a `]=` of the line, or -1 |
| Entries.LastCloseEqIsLast | desktop_files.py:26-27 | no `]=` lies after that position, so the greedy `\[.*\]` ends at the last one |
| Entries.NameValue | desktop_files.py:26-27 | defines the `Name` pattern on one line: `Name=` then the value, or `Name[` … then the text after the last `]=` (no contract of its own; `NameValueIff` states its meaning) |
| Entries.NameValueIff | desktop_files.py:26-27 | `^Name(?:\[.*\])?=(.*)$` gives `v` exactly when the line is `Name=` + `v`, or `Name[`…`]=` + `v` with `v` holding no `]=` |
| Entries.NameValueShape | desktop_files.py:26-27 | a `Name` value comes from a line of one of the two shapes |
| Entries.LocalisedNameValue | desktop_files.py:26-27 | a localised `Name[..]=` line gives the text after its last `]=` |
| Entries.FirstValue | desktop_files.py:26-33 | defines `re.search` of a field over the lines: the value of the first line that matches (no contract of its own; `FirstValueIff` states its meaning) |
| Entries.FirstValueIff | desktop_files.py:26-33 | a key is `None` exactly when no line has it; otherwise its value is that of the first line that has it, localised or not |
| Entries.HeaderMatchesNothing | desktop_files.py:26-29 | a line starting with `[` matches none of the three patterns |
| Entries.EntryOfLines | desktop_files.py:26-41 | defines the record of a section's lines: first `Name`, first `Exec`, and the icon looked up only for a non-empty `Icon` value (no contract of its own; `FirstValueIff` and `IconAssetResolved` state its meaning) |
| Entries.ParseSection | desktop_files.py:25-41 | defines `parse_section` as the record of the section's lines (no contract of its own; `HeaderLineIgnored` states its meaning) |
| Entries.HeaderLineIgnored | desktop_files.py:25-45 | a section's record is that of the lines after its header, so a key on the document's first line is never seen |
| Entries.IconAssetResolved | desktop_files.py:29-35 | an `Icon=<name>` whose `<name>.png` lies in the first icon root gives a record whose icon is that file's path |
| Entries.ActionEntries | desktop_files.py:50-52 | there are never more actions than later sections |
| Entries.ActionEntriesAppend | desktop_files.py:50-52 | the actions of consecutive runs of sections are those of each run, in order |
| Entries.ActionEntriesOne | desktop_files.py:50-52 | one later section gives its record when it opens with `[Desktop Action`, and nothing otherwise |
| Entries.NoActions | desktop_files.py:50-52 | a run of sections none of which opens with `[Desktop Action` gives no action |
| Entries.NonActionsSkipped | desktop_files.py:50-52 | non-action sections (`[Desktop Entry]`, `[Foo]`), wherever they stand among the later sections, leave the actions before and after them unchanged |
| Entries.ParseDocument | desktop_files.py:43-57 | defines `parse_desktop_file`: the first section as the main entry, the later `[Desktop Action` sections as actions, failure with no section (no contract of its own; `ParseDocumentShape`, `ParseFailsIff` and `ComposedDocument` state its meaning) |
| Entries.ParseDocumentShape | desktop_files.py:43-57 | parsing fails exactly when there is no section, and a parse has fewer actions than the document has sections |
| Entries.ParseFailsIff | desktop_files.py:44-47 | parsing fails exactly when every piece is blank, and in particular on an empty or whitespace-only document |
| Entries.BlankHasNoSep | desktop_files.py:44-45 | blank text holds no separator |
| Entries.ComposedDocument | desktop_files.py:44-57 | a main part and N parts opening with `[Desktop Action` give the main record and exactly N actions, each the record of its own part, in document order |
| Entries.ComposedSections | desktop_files.py:44-45 | a main part and separator-free parts joined with `"\n["` give the main part with `[` in front, then the non-blank parts with `[` in front |
| Entries.ParseOfSections | desktop_files.py:47-57 | a document's result is the record of its first section and the actions of the rest |
| Entries.ActionEntriesAll | desktop_files.py:50-52 | sections that all open with `[Desktop Action` become exactly one action each, in order |
| Entries.ActionPiecesParse | desktop_files.py:45-52 | parts opening with `Desktop Action` are all kept, and each becomes one action in order |
| AppScan.DesktopDirs | desktop_files.py:63-69 | the four application directories, in order |
| AppScan.Keep | desktop_files.py:82-83 | defines the filter: a non-empty name that, lower-cased, contains some term, or any non-empty name when there are no terms (no contract of its own; `SearchExample`, `ScanSound` and `ScanComplete` state its use) |
| AppScan.DesktopPaths | desktop_files.py:75-77 | only files whose name ends in `.desktop` are read |
| AppScan.WalkPaths | desktop_files.py:74-77 | the same, over a whole walk |
| AppScan.RootPaths | desktop_files.py:73-77 | the same, over every directory |
| AppScan.DesktopPathsComplete | desktop_files.py:75-77 | every `.desktop` file of a directory is read: its joined path is among the directory's paths |
| AppScan.DesktopPathsSound | desktop_files.py:75-77 | nothing else is read: every path of a directory is the joined path of one of its `.desktop` files |
| AppScan.WalkPathsComplete | desktop_files.py:74-77 | every `.desktop` file of every directory of a walk is read |
| AppScan.RootPathsComplete | desktop_files.py:73-77 | every `.desktop` file under every application directory is read |
| AppScan.RootPathsAppend | desktop_files.py:73 | the paths of several directories are those of each directory in list order |
| AppScan.Load | desktop_files.py:78-81 | loading a path fails, naming that path, exactly when the file cannot be read or its parse fails; otherwise it gives the parse |
| AppScan.ScanPaths | desktop_files.py:73-84 | defines the scan of a path list: load each in order, keep what passes the filter, stop at the first failure (no contract of its own; the lemmas below state its meaning for any loader) |
| AppScan.Scan | desktop_files.py:62-86 | defines `get` as the scan of every `.desktop` path of the four directories with `Load` (no contract of its own; `ScanFindsEveryApp` and the lemmas below state its meaning) |
| AppScan.ScanPathsAppend | desktop_files.py:71-86 | output order is path order, and the first failing file wins |
| AppScan.ScanFailsIff | desktop_files.py:73-81 | for any loader, the scan fails exactly when some path fails to load (with `Load`: is unreadable or has no section) |
| AppScan.ScanFailsFirst | desktop_files.py:73-81 | a failed scan carries the error of the first path that fails to load, and every earlier path loaded |
| AppScan.ScanSound | desktop_files.py:80-84 | every record returned passes the filter and is exactly what some scanned path loaded to |
| AppScan.ScanComplete | desktop_files.py:80-84 | every scanned path whose load passes the filter is in the output |
| AppScan.ScanFindsEveryApp | desktop_files.py:73-84 | when `get` succeeds, every `.desktop` file under an application directory was readable and parsed, and its record is returned when it passes the filter |
| AppScan.SearchExample | desktop_files.py:60-83 | with the term "Fire", "Firefox" is kept and "Calculator" is not; with no terms both are kept |
| Discovery.DesktopFiles.constructor | desktop_files.py:59-60 | the terms are lower-cased once, so each stored term is already lower-case |
| Discovery.DesktopFiles.FindIconPath | desktop_files.py:6-22 | the three nested loops with early return compute the first-match lookup `IconLookup` |
| Discovery.DesktopFiles.ParseDesktopFile | desktop_files.py:24-57 | the section loop computes `ParseDocument`: the main entry, then the actions appended in order |
| Discovery.DesktopFiles.Get | desktop_files.py:62-86 | the nested loops compute `Scan` over the stored terms: the same records, the same order, the same failure |
| Discovery.DesktopFiles.ScanWalk | desktop_files.py:74-86 | the loop over one walk computes the scan of that walk's `.desktop` paths |
| Discovery.DesktopFiles.ScanDirectory | desktop_files.py:75-86 | the loop over one directory's files computes the scan of its `.desktop` paths, stopping at the first that fails |
| Ui.WithIcons | ui.py:51-53 | filtered apps all have a truthy icon and come from the input |
| Ui.ButtonApps | ui.py:51-66 | at most six buttons, each for an app with an icon among `apps[:6]` |
| Ui.WithIconsComplete | ui.py:51-53 | every app with an icon gets into the filtered list |
| Ui.WithIconsAppend | ui.py:51-66 | filtering keeps app order |
| Ui.ButtonsIgnoreLaterApps | ui.py:51 | an app after the sixth never gets a button, even when none of the first six has an icon |
| Ui.NoIconNoButton | ui.py:53 | with no icon among them, no app gets a button |
| Ui.NextIndex | ui.py:156 | Right keeps the index in `[0, n)` |
| Ui.PrevIndex | ui.py:159 | Left keeps the index in `[0, n)` |
| Ui.NextPrevInverse | ui.py:155-160 | Left undoes Right and Right undoes Left |
| Ui.NextIndexInRange | ui.py:156 | Right wraps from the last button to the first and otherwise moves one on |
| Ui.PrevIndexInRange | ui.py:159 | Left wraps from the first button to the last and otherwise moves one back |
| Ui.RightsCycle | ui.py:155-157 | `k` presses of Right move `k` places round the ring; `n` presses come back |
| Ui.ModUnique | ui.py:155-160 | Python's `%` with a positive divisor is the unique remainder in `[0, n)` |
| Ui.LaunchArgv | ui.py:80-92 | a process starts only with an `Exec` and a non-empty argv. With a user and no `flatpak run` in the command it starts with exactly `sudo -u <user>` + `exec.split()`, and a started argv always has that shape. Without a user it starts with exactly `exec.split()` when that is non-empty |
| Ui.LaunchArgvTokens | ui.py:84-90 | a command made of whitespace-free tokens is launched as exactly those tokens, after the `sudo` prefix when a user is set |
| Ui.FieldCodeExample | ui.py:84 | the field code `%u` passes through as a literal token |
| Ui.FlatpakRefusedForUser | ui.py:86-87 | with a user set, a `flatpak run` command starts nothing |
| Ui.Dock.constructor | ui.py:27-33 | a new dock has the buttons of `apps`, selection 0 and the highlight on it, and is hidden |
| Ui.Dock.InitUI | ui.py:50-78 | the loop builds exactly `ButtonApps(apps)`, then selects 0 with the highlight invariant established |
| Ui.Dock.UpdateSelection | ui.py:145-152 | afterwards exactly the selected button is highlighted |
| Ui.Dock.ToggleVisibility | ui.py:137-143 | visibility flips |
| Ui.Dock.HandleStopSignal | ui.py:170-172 | the application is asked to quit |
| Ui.Dock.LaunchApp | ui.py:80-92 | the dock is hidden first, and the argv is `LaunchArgv` of the user and the command |
| Ui.Dock.ClickButton | ui.py:63-64 | a click launches that button's app's `Exec` |
| Ui.Dock.KeyPress | ui.py:154-168 | Right/Left move the ring, or raise `ZeroDivisionError` with no buttons; Return launches the selected app; Down opens the menu only for a non-empty action list; other keys change nothing; the highlight invariant is kept |
| Driver.Terminator | driver.py:28-38 | the first chunk that ends reading: all earlier chunks are neither empty, nor `"stop"`, nor undecodable |
| Driver.Dispatch | driver.py:26-40 | the stop flag and the quit request are never cleared, and the flag is set only together with the quit request |
| Driver.Effect | driver.py:26-40 | defines the closed form of a connection's effect: visibility flipped once per `"toggle"` before the first ending chunk, flag and quit request set when that chunk is `"stop"` (no contract of its own; `DispatchEffect` ties it to the handler) |
| Driver.DispatchEffect | driver.py:26-40 | the handler's effect is the closed form `Effect`: visibility flips once per exact `"toggle"` before the first ending chunk; stop flag and quit request are set exactly when that chunk is `"stop"` |
| Driver.DispatchAppend | driver.py:28-40 | chunks that end nothing act first and the rest after |
| Driver.AfterStopIgnored | driver.py:34-38 | nothing after `"stop"` on the same connection has any effect |
| Driver.ToggleTwiceRestores | driver.py:32-33 | two `"toggle"` chunks leave the state unchanged |
| Driver.UnrecognisedIgnored | driver.py:39-40 | any other non-empty text changes nothing and reading goes on |
| Driver.ToggleWithNewlineIgnored | driver.py:32 | `"toggle\n"` is not a toggle |
| Driver.Serve | driver.py:51-63 | the loop stops early only when the stop flag is set or an accept fails; a set flag means no poll at all; a flag it sets comes with a quit request |
| Driver.ServeStep | driver.py:51-63 | an unfolding step of `Serve` at any offset, used by `RunServer`'s loop: a failed accept ends the loop; a timeout counts one poll; a connection applies `Dispatch` and counts one poll |
| Driver.StopEndsServer | driver.py:34-52 | a connection sending `"stop"` is the last one served and leaves the flag set |
| Driver.IsAnotherInstanceRunning | driver.py:15-23 | true exactly on a successful connect, false exactly on timeout or refusal, and any other error escapes |
| Driver.Call | driver.py:89-95 | the command is sent unchanged exactly when an instance answers and the second connect succeeds; nothing is sent exactly when the probe times out or is refused; an exception escapes exactly when the probe fails otherwise or the second connect fails |
| Driver.DefaultStylesheet | driver.py:107 | the default config path ends in `styles.css` |
| Driver.Launch | driver.py:103-108 | it backs off exactly when an instance answers and starts exactly when the probe times out or is refused; a start passes on the search terms and `show`, with `config` when given and otherwise exactly `DefaultStylesheet` |
| Driver.SingleInstance | driver.py:89-105 | on the same probe, `launch` starts exactly when `call` sends nothing, and `call` sends only when `launch` backs off |
| Driver.RestartStopsAuthority | driver.py:34-52 | a `"stop"` call reaching a running authority is the last connection served, and it sets the stop flag and the quit request |
| Driver.DockUserAsWritten | driver.py:76 | the stylesheet path is taken as the dock's sudo user exactly when one is given |
| Driver.StylesheetBecomesSudoUser | driver.py:76 | as written, every launch runs `sudo -u <…/styles.css> …` and `flatpak run` commands are refused |
| Driver.UnsetUserRunsCommand | ui.py:83-84 | with no user set, a command runs as its own tokens, `flatpak run` included |
| Driver.Authority.constructor | driver.py:76-78 | the dock is built over the apps and is visible exactly when `show` is set; the stop flag starts unset |
| Driver.Authority.HandleClient | driver.py:26-40 | the loop's effect is `Dispatch`, and it reads up to and including the first ending chunk |
| Driver.Authority.RunServer | driver.py:43-66 | with the port bound the loop computes `Serve`; without it nothing is served |
| Driver.Authority.FinishApplication | driver.py:85 | after the UI loop the stop flag is set |
| Driver.StartApplication | driver.py:71-81 | it fails exactly when the scan fails; otherwise it gives a fresh authority whose dock holds the scanned apps over the lower-cased terms, has no user set, and is visible exactly when `show` is set |

## Left out

- Sockets, timeouts, `bind`/`listen`/`accept` and threads (driver.py:43-86)
  are not modelled. Each accept outcome is an input event. Probe and connect
  results are input values. Each connection is handled to completion before
  the next poll, so connections running concurrently are not interleaved.
- Driver.Authority.RunServer: a failed `bind` is modelled as the server doing
  nothing. The exception that ends the server thread is not reported.
- `client.send` may send only part of the payload. The model sends it whole.
- Decoding a received chunk can fail part-way through a multi-byte character.
  This is modelled only as an undecodable chunk.
- The Qt event loop, `QApplication`, window flags, geometry and stylesheets
  are not modelled (ui.py:35-48, 67-75).
- `show_actions_menu` (ui.py:94-135) is not modelled. Choosing a menu item
  calls `launch_app` with the action's `Exec`, which `Ui.Dock.LaunchApp`
  covers.
- Cross-thread signal delivery is not modelled. `Dock.HandleStopSignal` is
  called directly.
- Image conversion and scaling with cairosvg, PIL and temporary files
  (ui.py:8-21, 54-56) are not modelled. A failing image would raise from the
  constructor.
- `subprocess.Popen` is not modelled. Only the argv it would receive is.
- Reading files is not modelled: contents are a map, and a missing entry
  means the file could not be opened. UTF-8 decoding errors when reading a
  file are not modelled.
- The general regular-expression engine is not modelled. Only the three
  patterns are, as line predicates.
- Text.Lower: lower-cases ASCII letters only. Python's `str.lower()` also maps
  other Unicode letters, so search terms and names beyond ASCII are compared
  with less folding than the source applies.
- `list` and its JSON printing (driver.py:98-100) are not modelled.
- The argparse front end in `cli.py` is not modelled.
- `__init__.py` holds only package metadata.
- Console messages are not modelled.

## Findings

| source | as written | input that shows it | evidently intended | confidence | as-written member | corrected member |
|---|---|---|---|---|---|---|
| driver.py:76 | `DockUI(icons, config)` passes the stylesheet path as the second argument, which is `non_root_user` (ui.py:27) | `launch()` with no config: the dock's user is `<package dir>/styles.css`. Launching "firefox" then runs `sudo -u <package dir>/styles.css firefox`, and `flatpak run …` is refused | the dock runs commands as the current user, with no sudo user set | high, not executed | Driver.StylesheetBecomesSudoUser | Driver.StartApplication |
