# Textadept GTK front end: a verified model of its logic

Textadept's GTK platform layer (`src/textadept_gtk.c`) is mostly widget
construction and GLib calls. Inside it are a few pieces of real logic, and this
Dafny project models each one as a module and proves what it promises:

- `ListSearch` (`matcher.dfy`): the list dialog's search matcher `matches`. A key of
  space-separated words matches an item when each word occurs in the item, in
  order and ignoring ASCII case. Each word is searched for from where the
  previous word's match ended.
- `Separated` (`splitting.dfy`): splitting a string at every separator and
  joining it again. The matcher splits its key on `' '`. The remote-instance
  framing splits on `'\n'`.
- `FindHistory` (`history.dfy`): the find/replace history list store fed by
  `add_to_history`. It holds at most ten entries and never the same text twice
  in a row.
- `Processes` (`process.dfy`): the `struct Process` record. It covers its event-loop
  watches, `read_channel`'s drain loop, `cleanup_process`, `wait_process`'s
  status and `read_process_output`.
- `SplitViews` (`panes.dfy`): the split-view layout as a binary tree of panes
  with views at the leaves. It covers `split_view`, `remove_views`,
  `unsplit_view` and `get_top_pane`.
- `ListDialog` (`listdialog.dfy`): how `list_dialog` pours its items into rows,
  filters them with `matches` and reports the selection. It also covers the
  result rules shared with `input_dialog`.
- `RemoteInstance` (`remote.dfy`): on Windows, how a second instance sends its
  directory and arguments to the running one through a named pipe. It also
  covers the environment block `spawn` builds for `CreateProcessA`.
- `KeyBindings` (`keys.dfy`): Enter in the find box (`find_keypress`) and the
  menu accelerator modifiers (`read_menu`).
- `Wrappers` (`wrappers.dfy`): the `Option` type.

C strings are `seq<char>`. A NUL inside a C string is modelled where the code
measures it with `strlen` (`RemoteInstance.CString`). The POSIX wait status is
a `bv32`. Callbacks into Lua (`process_output`, `process_exited`,
`delete_view`) are recorded in ghost logs or returned as values. GLib read
results are parameters.

## Model

| member | source | states |
|---|---|---|
| ListSearch.Matches | src/textadept_gtk.c:712-727 | Returns 0 or 1, and returns 0 exactly when the key is empty or every space-separated word is found in order, each from the end of the previous match |
| ListSearch.NextWord | src/textadept_gtk.c:717-725 | One outer-loop iteration: whether the rest of the key matches from `match_pos` is "this word is found, and either the key ends or the rest after the space matches from the new position" |
| ListSearch.WordEnd | src/textadept_gtk.c:718 | The word ends at the first space at or after `s`, or at the key's end |
| ListSearch.SearchWord | src/textadept_gtk.c:719-723 | The inner loop stops at the position `FindFrom` names, or at the item's end when the word is not found |
| ListSearch.FindFromEarliest | src/textadept_gtk.c:719-723 | A found position is a case-insensitive match before the item's end, with no match between the start and it; not found means no position before the item's end matches |
| ListSearch.MatchWords | src/textadept_gtk.c:716-726 | Every word is found in order, each searched for from the end of the previous word's match, the first from `pos`. `MatchStep` ties it to one iteration of the outer loop |
| ListSearch.MatchStep | src/textadept_gtk.c:719-724 | Finding the word at `p` advances the match to `p` plus the word's length, and not finding it fails the whole key |
| ListSearch.FoldPrefix | src/textadept_gtk.c:720 | `g_strncasecmp(s, p, n) == 0` needs at least `n` characters left in the item, because NUL stops the compare |
| ListSearch.FindFrom | src/textadept_gtk.c:719-723 | A found position lies before the item's end, with the whole word inside the item. `FindFromEarliest` shows it is the earliest match |
| ListSearch.MatchesKey | src/textadept_gtk.c:712-727 | The empty key matches every item. Any other key, even spaces only, never matches an empty item, because the search loop needs a character |
| ListSearch.FoldPrefixAgrees | src/textadept_gtk.c:720 | The compare succeeds iff the item has at least `n` characters left and each agrees with the word's after ASCII folding |
| ListSearch.FindFromFolded | src/textadept_gtk.c:720 | Searching for a word gives the same result in the item and in its ASCII case-folded copy |
| ListSearch.MatchWordsAgree | src/textadept_gtk.c:716-726 | Two items on which every word search gives the same answer match the same word lists |
| ListSearch.MatchWordsFolded | src/textadept_gtk.c:716-725 | Matching a word list gives the same answer for the item and for its ASCII case-folded copy |
| ListSearch.ItemCaseIgnored | src/textadept_gtk.c:712-727 | The matcher ignores the ASCII case of the item |
| ListSearch.SingleWord | src/textadept_gtk.c:712-727 | A one-word key matches iff the word occurs somewhere in the item, ignoring case, starting before the item's end |
| ListSearch.TrailingSpaceNeedsMore | src/textadept_gtk.c:718-724 | A trailing space adds an empty word that needs a character left in the item: "ab " rejects "ab" but accepts "abc" |
| Separated.Split | src/textadept_gtk.c:717-718 | There is always at least one piece. `JoinSplit`, `SplitJoin` and `SplitSepFree` pin the pieces exactly |
| Separated.SplitStep | src/textadept_gtk.c:717-718 | Scanning from `s` to the next separator yields the first piece of the split, and the rest of the split continues after the separator |
| Separated.JoinSplit | src/textadept_gtk.c:718 | Joining the pieces of a split with the separator gives back the original string |
| Separated.SplitJoin | src/textadept_gtk.c:1041 | Splitting a join of separator-free pieces gives back the pieces |
| Separated.SplitSepFree | src/textadept_gtk.c:718 | No piece of a split holds the separator |
| FindHistory.AddedToHistory | src/textadept_gtk.c:433-446 | Keeps at most 10 entries and ends with `text`. The oldest entry is dropped when there were more than 9. `text` is appended only if it differs from the last entry, and the other entries keep their order |
| FindHistory.AddKeepsNoRepeats | src/textadept_gtk.c:436-444 | Adding keeps the history free of two equal neighbouring entries |
| FindHistory.RepeatOnFullHistoryShrinks | src/textadept_gtk.c:436-444 | The oldest entry is dropped even when nothing is appended: re-adding the last text to a full history leaves nine entries |
| FindHistory.HistoryStore.Add | src/textadept_gtk.c:433-446 | The store's entries become `AddedToHistory` of the old entries, and the store stays within capacity without repeats |
| Processes.SpawnWatches | src/textadept_gtk.c:954-956 | Spawning registers a stdout watch iff stdout is monitored, a stderr watch iff stderr is, and always a child watch |
| Processes.SpawnWatchCount | src/textadept_gtk.c:954-956 | A spawned record has one watch per monitored stream plus the child watch |
| Processes.AtMostThreeWatches | src/textadept_gtk.c:874-876 | A record never has more than three watches, so three `g_source_remove_by_user_data` calls remove them all |
| Processes.Process.Spawn | src/textadept_gtk.c:954-956 | A spawned record is running with all pipes open. Both channels are unbuffered and the watches are `SpawnWatches` |
| Processes.Process.NewChannel | src/textadept_gtk.c:860-870 | The channel is unbuffered, and a watch is added for it exactly when asked |
| Processes.FirstShort | src/textadept_gtk.c:855 | The drain stops at the first read that did not fill `BUFSIZ` bytes |
| Processes.Forwarded | src/textadept_gtk.c:851-853 | Each chunk passed to `process_output` is non-empty and tagged stdout iff the source is `cstdout` |
| Processes.Drain | src/textadept_gtk.c:849-855 | Reads up to and including the first short read, and passes exactly the normal non-empty chunks to `process_output`, in order |
| Processes.ForwardedKeepsBytes | src/textadept_gtk.c:851-854 | The chunks passed on hold exactly the bytes of the normal reads, in stream order |
| Processes.Process.ReadChannel | src/textadept_gtk.c:846-856 | Reads nothing and drops its watch when `pid` is 0 or there is no input. Otherwise it drains. The watch is kept iff `pid` is non-zero and there was no hang-up |
| Processes.Process.RemoveByUserData | src/textadept_gtk.c:874 | Removes one of the record's watches, if any |
| Processes.Process.Cleanup | src/textadept_gtk.c:873-884 | No watches remain and the pipes are closed. `is_process_running` becomes false, `get_process_exit_status` returns the status, and `process_exited` receives it |
| Processes.NormalizeWaitStatus | src/textadept_gtk.c:966 | The reported status is the exit code after a normal exit and 1 otherwise, always within 0..255 |
| Processes.ExitCodeRoundTrip | src/textadept_gtk.c:966 | A child that calls `exit(code)` is reported with `code` |
| Processes.SignalledIsFailure | src/textadept_gtk.c:966 | A child killed by a signal, with or without a core dump, is reported as 1 |
| Processes.Process.WaitProcess | src/textadept_gtk.c:963-967 | After `waitpid`, the record is cleaned up with the normalised status. The output and the channels' buffering are unchanged |
| Processes.Int32Of | src/textadept_gtk.c:968-972 | The Windows DWORD exit code stored as a 32-bit `int`: the same value, or that value minus 2^32 above `INT_MAX` |
| Processes.Process.WaitProcessHandle | src/textadept_gtk.c:968-973 | After `GetExitCodeProcess`, the record is cleaned up with the exit code as an `int`. The output and the channels' buffering are unchanged |
| Processes.Process.IsRunning | src/textadept_gtk.c:961 | A valid record that is not running has no watches and no open pipes |
| Processes.Process.ExitStatus | src/textadept_gtk.c:1026 | Returns the status that the last `cleanup_process` stored. `Cleanup`, `WaitProcess` and `WaitProcessHandle` state this value |
| Processes.StripLine | src/textadept_gtk.c:994-995 | 'l' mode removes at most one trailing '\n', then at most one trailing '\r', and changes no other byte. The result is fixed for every ending: "\r\n" loses both, a lone '\n' or a lone '\r' loses one, any other last byte loses nothing |
| Processes.ManualResult | src/textadept_gtk.c:975-999 | 'a' turns EOF into success. Otherwise EOF gives NULL with no error, and any other failure gives NULL with the error's message and code. Normal reads return the bytes, with 'l' stripping the line end |
| Processes.Process.ReadOutput | src/textadept_gtk.c:975-999 | The result is `ManualResult`, and `cstdout` is left buffered iff buffered input remains |
| SplitViews.RemoveViews | src/textadept_gtk.c:323-327 | Deletes one view per leaf, exactly the views of the subtree |
| SplitViews.RemoveViewsOnce | src/textadept_gtk.c:323-327 | In a layout without repeated views, each view is deleted exactly once |
| SplitViews.Split | src/textadept_gtk.c:306-320 | The leaf `view` is replaced, in its own slot, by a pane with `view` as child1 and `view2` as child2, and nothing else changes (`Replace`). The new view joins the layout exactly when the split view is in it |
| SplitViews.SplitKeepsDistinct | src/textadept_gtk.c:306-320 | Splitting with a new view keeps the views distinct and adds exactly one leaf |
| SplitViews.SplitAbsent | src/textadept_gtk.c:306-320 | Splitting leaves alone every subtree that does not hold the view |
| SplitViews.UnsplitView | src/textadept_gtk.c:329-349 | `unsplit_view` on the tree: no change when the view's parent is not a pane; otherwise the other child's views are deleted and the view takes the pane's slot. `UnsplitSpec` and `UnsplitReplacesParent` state this |
| SplitViews.Other | src/textadept_gtk.c:333-335 | The pane's child1 unless that is the view itself, otherwise child2 |
| SplitViews.UnsplitSpec | src/textadept_gtk.c:329-349 | Fails exactly when the view's parent is not a pane. On success the view stays, every other view is kept or deleted but not both, the tree stays distinct, and leaves are accounted for |
| SplitViews.Parent | src/textadept_gtk.c:330-331 | The view's parent is a pane with the view as one of its two children, no larger than the layout |
| SplitViews.ParentOnPath | src/textadept_gtk.c:330-331 | The parent is the widget just above the view on the path from the top of the layout |
| SplitViews.UnsplitReplacesParent | src/textadept_gtk.c:329-349 | For a view that is not alone, the deleted views are exactly those of the parent's other child (child1 unless that is the view), child1's side first. The new layout is the old one with the parent pane replaced by the view, and the rest is unchanged |
| SplitViews.ReplaceAbsent | src/textadept_gtk.c:339-345 | Replacing a pane that holds the view leaves every subtree without the view unchanged |
| SplitViews.UnsplitAfterSplit | src/textadept_gtk.c:306-349 | Unsplitting a view right after splitting it restores the original layout and deletes only the new view |
| SplitViews.PathTo | src/textadept_gtk.c:354-358 | The chain from the top of the layout to a view: every widget above the view is a pane, and the next widget is one of its two children |
| SplitViews.Layout.SplitView | src/textadept_gtk.c:306-320 | The layout becomes `Split` of the old one, gains `view2` and stays distinct |
| SplitViews.Layout.UnsplitViewIn | src/textadept_gtk.c:329-349 | Returns false iff the view is alone. Otherwise the layout and the `delete_view` log follow `UnsplitView`, and the view is still shown |
| SplitViews.Layout.GetTopPane | src/textadept_gtk.c:354-358 | Climbing from the focused view while the parent is a pane reaches the top of the layout |
| ListDialog.PackRows | src/textadept_gtk.c:779-786 | The `j`-counter loop builds exactly the row-major packing of the items into rows of `num_columns` |
| ListDialog.PlaceItem | src/textadept_gtk.c:782-784 | Storing item k at the counter's column fills exactly the slot whose row-major index is k |
| ListDialog.ItemPlacement | src/textadept_gtk.c:779-786 | Item k (counting from 1) is in row (k-1) div `num_columns`, column (k-1) mod `num_columns` |
| ListDialog.OnlyLastRowShort | src/textadept_gtk.c:779-786 | Every row but the last is full |
| ListDialog.Visible | src/textadept_gtk.c:731-734 | Once a key is typed, a row whose search text is empty is hidden |
| ListDialog.VisibleFrom | src/textadept_gtk.c:731-734 | The filter shows exactly the rows whose search cell `matches` the key, in list-store order |
| ListDialog.Reported | src/textadept_gtk.c:767-771 | One reported index per selected row |
| ListDialog.ReportedRowsMatch | src/textadept_gtk.c:767-771 | Every reported index is a 1-based list-store row whose search cell matches the key |
| ListDialog.Cancelled | src/textadept_gtk.c:632 | A closed dialog (button < 1) always cancels and the first button never does. When buttons are returned, only closing cancels |
| ListDialog.InputResult | src/textadept_gtk.c:630-635 | No result for button < 1, or for button 2 unless buttons are returned. Otherwise the entry text, plus the button iff asked for |
| ListDialog.ListResult | src/textadept_gtk.c:822-830 | No result when cancelled or nothing is selected. Otherwise the index (single) or indices (multiple), plus the button iff asked for |
| RemoteInstance.CString | src/textadept_gtk.c:1069-1071 | The C string is the prefix before the first NUL |
| RemoteInstance.Rewritten | src/textadept_gtk.c:1085-1087 | The buffer after the rewrite is one byte longer than what was read and ends in a NUL |
| RemoteInstance.RewriteNuls | src/textadept_gtk.c:1085-1087 | In place: stores a NUL after the bytes read, turns every NUL before the last byte read into '\n', and leaves the rest of the buffer alone |
| RemoteInstance.RewriteEndAsWritten | src/textadept_gtk.c:1086 | The DWORD loop bound `p - buf - 1` lies in 0..2^32-1 |
| RemoteInstance.RewriteEndInRange | src/textadept_gtk.c:1084-1086 | For a non-empty read, the loop ends at the last byte read |
| RemoteInstance.EmptyReadOverruns | src/textadept_gtk.c:1084-1086 | For an empty read, the loop bound wraps to 2^32-1, far past the 65536-byte buffer |
| RemoteInstance.EmptyReadSendsNothing | src/textadept_gtk.c:1084-1088 | With the corrected rewrite, an empty read decodes to no strings, so `process` sends no event |
| RemoteInstance.ArgTable | src/textadept_gtk.c:1045-1047 | The table holds the directory at -1 and argument i at i, and nothing else |
| RemoteInstance.ProcessCommandLine | src/textadept_gtk.c:1034-1051 | The `while (--argc)` loop builds `ArgTable` when there is at least one argument, and no table otherwise |
| RemoteInstance.Frame | src/textadept_gtk.c:1069-1071 | Each string is written as a C string followed by its NUL: the message is empty iff there are no strings, and otherwise ends in a NUL. `FrameJoined` gives its exact content |
| RemoteInstance.Message | src/textadept_gtk.c:1066-1071 | The message starts with the current directory as a C string and its NUL, and it ends in a NUL |
| RemoteInstance.SplitLines | src/textadept_gtk.c:1041 | An empty string has no pieces. Otherwise the pieces joined with '\n' give back the string, and no piece holds a '\n' |
| RemoteInstance.Decode | src/textadept_gtk.c:1041-1042 | An empty read gives no strings, and no decoded string holds a '\n'. `FramingRoundTrip` gives the exact result |
| RemoteInstance.FrameJoined | src/textadept_gtk.c:1069-1071 | The message is the NUL-joined strings plus a final NUL |
| RemoteInstance.NewlinesJoined | src/textadept_gtk.c:1086-1087 | Rewriting NULs to '\n' turns the NUL-joined strings into '\n'-joined ones |
| RemoteInstance.FramingRoundTrip | src/textadept_gtk.c:1064-1091 | For a message shorter than the 65536-byte buffer, which the read loop at 1084 takes whole, the listener decodes what `g_application_run` writes into the directory followed by the arguments, in order (an empty directory alone decodes to nothing) |
| RemoteInstance.RemoteArgumentsArrive | src/textadept_gtk.c:1041-1047 | For a message shorter than the buffer: with arguments, the table holds the sender's directory at -1 and its i-th argument at i. Without arguments, no event is sent |
| RemoteInstance.EnvBlock | src/textadept_gtk.c:913-919 | The block ends in NUL: each entry is NUL-terminated, and one more NUL follows |
| RemoteInstance.EnvRoundTrip | src/textadept_gtk.c:913-919 | Reading the block back until an empty string gives the entries, when they are non-empty and NUL-free |
| KeyBindings.FindKeypress | src/textadept_gtk.c:124-130 | Only Enter is handled |
| KeyBindings.FindKeypressInverse | src/textadept_gtk.c:124-130 | Shift and the focused entry pick the button, and each of the four buttons is reached by exactly one combination |
| KeyBindings.ToGdk | src/textadept_gtk.c:517-521 | Shift, Ctrl, Alt and Meta map to the GDK shift, control, mod1 and meta masks |
| KeyBindings.ToGdkRoundTrip | src/textadept_gtk.c:517-521 | Only Super is lost in the translation |
| KeyBindings.ToGdkBijective | src/textadept_gtk.c:517-521 | Without Super, the translation is one-to-one and onto the masks |
| KeyBindings.Accelerator | src/textadept_gtk.c:515-522 | An accelerator is added iff the label is non-empty and the key is positive. It carries the key and the translated modifiers |

## Left out

- GTK widget construction and layout are not modelled: window, find box, tabs, status bar, menus, fonts, clipboard, and the message, file and progress dialogs. Widget sizes and the paned position of `split_view` are also out.
- `emit`, Lua stack manipulation, and the `process_output`, `process_exited` and `delete_view` callbacks are external collaborators. They appear only as ghost logs (`output`, `exited`, `deleted`) or returned values.
- The `process_output` callback is assumed not to clean up the record (`pid` keeps its value across the drain).
- Spawn's OS work is left out: argument parsing, `g_spawn_async_with_pipes`, `CreatePipe`/`CreateProcessA`, `_open_osfhandle` and `FormatMessageA`. `Processes.Process.Spawn` starts from the child id the OS returned.
- `write_process_input`, `close_process_input` and `kill_process` are left out. They are one-line system-call wrappers.
- Blocking waits (`waitpid`, `WaitForSingleObject`, `GetExitCodeProcess`) and the event loop are left out. Only the status value after the wait is modelled.
- The named-pipe listener thread is left out (`ConnectNamedPipe`, `ReadFile`, `DisconnectNamedPipe`, `TerminateThread`). `RemoteInstance.RewriteNuls` receives the number of bytes read, at most 65535.
- `process`'s `if (!lua)` guard and `gtk_window_present` are left out.
- The progress dialog's floating-point `update`, the macOS handlers and the `spawn_procs_polled` registry are not modelled.
- `select_first_item`, `refilter`, `list_keypress` and `row_activated` are left out. They only drive widgets.
- `BUFSIZ` is taken as glibc's 8192.
- `Processes.Process.ReadOutput`: in 'l' mode the line must allow `buf[*len - 1]` at lines 994-995. It must be non-empty, and not a lone "\n", or the second index reads before the buffer. This is a precondition, not a guard the code has.
- `Processes.Process.ReadOutput`: the `G_IO_STATUS_AGAIN` status is excluded, because the code then reads `err->message` with `err` still NULL. An option other than l, L, a or n is excluded too, because `buf` is then uninitialised.
- `Processes.Process.Cleanup` requires a running record. The code has no guard against a second call, and no at-most-once property is claimed.
- `Processes.Process.Spawn` sets the exit status to 0. In the code it is uninitialised until the process exits.
- `Processes.Process.ReadChannel`: the read outcomes must include a short read, which models a finite stream.
- `ListDialog.PackRows` requires at least one column, because `gtk_list_store_newv` rejects zero columns.
- `ListDialog.Visible` requires a set search cell when the key is non-empty. The code would dereference NULL otherwise, and a search column outside the row is not modelled.
- `ListDialog.ListResult` takes the reported indices in the order `gtk_tree_selection_selected_foreach` gives them.
- `RemoteInstance.EnvBlock` takes the entries in `lua_next`'s order, and assumes every value is a string (a non-string gives NULL to `luaL_addstring`).
- The current-directory buffer size (`FILENAME_MAX + 1`) and `WriteFile` failures are not modelled.
- `KeyBindings.ToGdk` keeps the modifier masks symbolic, as flags, rather than their numeric values.
- `RemoteInstance.FramingRoundTrip` holds only for messages shorter than the 65536-byte buffer. The read loop at src/textadept_gtk.c:1084 stops after 65535 bytes, so a longer command line reaches `process` with its last argument cut short and the rest dropped. That truncated result is not modelled.
- `RemoteInstance.RemoteArgumentsArrive` carries the same bound, for the same reason.
- `ListDialog.PackRows` assumes that when `j != 0` the iterator still names the row appended by an earlier iteration. In src/textadept_gtk.c:780, `GtkTreeIter iter` is declared inside the loop body, so on those iterations its value is formally indeterminate. Multi-column packing works only because the compiler keeps the same stack slot, and that is not modelled.

## Findings

| source | as written | input that shows it | evidently intended | confidence | as-written member | corrected member |
|---|---|---|---|---|---|---|
| src/textadept_gtk.c:1084-1086 | `len = p - buf - 1` is a DWORD, so when no byte was read it wraps to 4294967295, and the loop then walks and writes past the 65536-byte buffer | a client that connects to the pipe and closes it without writing, or a `ReadFile` that fails at once | with nothing read, rewrite nothing and hand `process` an empty string, which sends no event | medium, not executed | RemoteInstance.EmptyReadOverruns | RemoteInstance.RewriteNuls |
