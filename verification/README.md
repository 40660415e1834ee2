# web-adb core, modelled in Dafny

web-adb is a browser client for Android devices that works over WebUSB and ADB.
This project models the logic of its four interactive pieces as pure Dafny functions and small state machines.
The device I/O appears only as inputs: the text a command printed, a `readdir` result, or whether a step succeeded.

- **Screen mirror** (`src/components/ScreenMirror.tsx`). Three modules:
  - `MirrorDrag`: the window-drag state machine, including the animation-frame coalescing.
  - `MirrorInput`: the mapping from a pointer on the video canvas to a touch command in device pixels, and the back/home key sequences.
  - `MirrorSession`: the session flags (`loading`, `error`, permission warning) and the client/decoder refs, across one start attempt whose awaits the effect cleanup can interrupt.
- **File explorer** (`src/components/FileExplorer.tsx`, module `Explorer`):
  - joining a child onto the current path and going up a level;
  - shaping a `readdir` result into the table (no `.`/`..`, directories first);
  - the explorer state under navigation;
  - the image test and the preview MIME type.
- **Application manager** (`src/components/AppManager.tsx`, module `Apps`):
  - parsing `pm list packages` output, merging the user and system lists, and sorting by package name;
  - the search filter;
  - the uninstall rules.
- **Language selection** (`src/lib/i18n.tsx`, module `I18n`): detecting the language, setting and storing it, and the two translation tables.

Shared modules:
- `Options`: the optional value.
- `Strings`: the JavaScript string operations the components use, each tied to a reference meaning. These are `startsWith`, `endsWith`, `includes`, `indexOf`, `replace`, `toLowerCase`, `trim`, `split` and `join`.
- `Sorting`: `Array.prototype.sort` as an insertion sort under a comparator, proved stable, as ECMAScript has required of `sort` since 2019.

The model follows the code in two places worth knowing:
- The mirror window has a fixed 360×760 size. Nothing resizes it to the video's aspect ratio.
- The listing comparator compares a row's name with itself (`a.name.localeCompare(a.name)`). Rows of the same kind therefore compare equal and keep their `readdir` order; they are not ordered by name.

## Model

| member | source | states |
|---|---|---|
| MirrorDrag.UpdatePosition | src/components/ScreenMirror.tsx:56-62 | With the container present, the window shows the latest computed offset and no frame is recorded. Without a container nothing changes, not even `frameId`. |
| MirrorDrag.MouseDown | src/components/ScreenMirror.tsx:64-83 | A press outside the drag handle changes nothing. A press on it records the pointer and the current offset and starts listening and dragging. It moves nothing. |
| MirrorDrag.MouseMove | src/components/ScreenMirror.tsx:85-96 | Without listeners a move changes nothing. Otherwise the offset becomes the offset at the press plus the pointer's travel. A fresh frame is requested only when none is recorded. The shown position is untouched. |
| MirrorDrag.FrameFires | src/components/ScreenMirror.tsx:56-62 | Only a pending frame has an effect. It leaves the pending set, and a mounted window then shows the latest offset with `frameId` cleared. |
| MirrorDrag.MouseUp | src/components/ScreenMirror.tsx:98-107 | A release stops dragging and listening. A recorded frame is cancelled and `frameId` cleared. With no frame recorded, the shown position and the pending set are unchanged. |
| MirrorDrag.Unmount | src/components/ScreenMirror.tsx:109-115 | Unmounting removes the listeners and cancels the recorded frame. `frameId` itself and the offsets are left as they were. |
| MirrorDrag.InitialInv | src/components/ScreenMirror.tsx:35-43 | The initial gesture (all zero, no frame) satisfies the gesture invariant. |
| MirrorDrag.NextInv | src/components/ScreenMirror.tsx:56-115 | Every event keeps the invariant. That is: at most one frame is pending and it is the recorded one; while mounted, a frame is pending exactly when one is recorded; with none recorded, the latest offset is shown; after unmounting nothing is pending. |
| MirrorDrag.RunInv | src/components/ScreenMirror.tsx:56-115 | The invariant holds after any sequence of events. |
| MirrorDrag.AtMostOnePending | src/components/ScreenMirror.tsx:93-95 | From the initial state, any run of events leaves at most one frame pending. A pending frame implies the window is still mounted. |
| MirrorDrag.DragOffset | src/components/ScreenMirror.tsx:70-73 | After a press on the handle, a move puts the offset at the pre-press offset plus the pointer delta. A move back to the press point leaves the offset unchanged. |
| MirrorDrag.MovesCoalesce | src/components/ScreenMirror.tsx:85-96 | Any burst of moves requests at most one frame and keeps an already recorded frame. The offset is the one the last move computed, and the shown position does not change. |
| MirrorDrag.FrameShowsLatest | src/components/ScreenMirror.tsx:56-61 | The frame that fires after a burst of moves shows the last move's offset. It leaves nothing pending and no frame recorded. |
| MirrorDrag.UpFlushes | src/components/ScreenMirror.tsx:98-106 | A release while dragging leaves no frame recorded or pending, and shows exactly the last computed offset. |
| MirrorInput.Scale | src/components/ScreenMirror.tsx:138-139 | `offset / extent * size` is exact for a non-zero extent. A zero extent gives NaN for a zero offset or size, and ±Infinity otherwise. |
| MirrorInput.InjectTouch | src/components/ScreenMirror.tsx:117-159 | Nothing is sent without a controller, renderer and non-zero video width, or for a touch event with no touches unless the action is Up. An Up with no touches at all throws. A sent command has the given action, pointer id 0, pressure 1, action button 0, buttons 0 and the current video size. |
| MirrorInput.SentIff | src/components/ScreenMirror.tsx:120-141 | A command is sent exactly when the controls are ready and the event's primary pointer lies inside the canvas rectangle. |
| MirrorInput.SentWithinVideo | src/components/ScreenMirror.tsx:136-141 | On a canvas of positive size a sent position is finite, with `0 ≤ x ≤ videoWidth` and `0 ≤ y ≤ videoHeight`. |
| MirrorInput.ZeroWidthSendsNaN | src/components/ScreenMirror.tsx:136-141 | On a zero-width canvas a click on its edge is still sent, with x equal to NaN. |
| MirrorInput.MappingInverts | src/components/ScreenMirror.tsx:136-139 | Mapping a sent position back to client coordinates gives the pointer position again. |
| MirrorInput.FractionPreserved | src/components/ScreenMirror.tsx:136-139 | A point at fraction (fx, fy) of the canvas is sent at `fx·videoWidth`, `fy·videoHeight`. |
| MirrorInput.Back | src/components/ScreenMirror.tsx:262-277 | Without a controller nothing is sent. With one, key code 4 goes down (repeat 0, meta 0). The same key comes up exactly when the controller accepted the key-down; a rejection ends the handler, which catches nothing, after the key-down alone, as an unhandled promise rejection. |
| MirrorInput.Home | src/components/ScreenMirror.tsx:255-260 | Without a controller nothing is sent. With one, the back-or-screen-on action goes down, and comes up exactly when the controller accepted the key-down. |
| MirrorInput.ButtonsReleaseKeys | src/components/ScreenMirror.tsx:255-277 | After any sequence of back and home clicks with a controller, the key-downs handed to the controller with no key-up following are exactly the clicks whose key-down the controller rejected; without a controller there are none. |
| MirrorInput.KeysReleasedIff | src/components/ScreenMirror.tsx:255-277 | Every key-down handed to the controller has a key-up following it exactly when there is no controller or every key-down was accepted. |
| MirrorSession.Release | src/components/ScreenMirror.tsx:250-251 | Closing through an optional ref leaves nothing live and leaves an absent or closed handle alone. |
| MirrorSession.Begin | src/components/ScreenMirror.tsx:166-168 | A start sets loading and clears the error and the warning. It keeps the refs. |
| MirrorSession.Cleanup | src/components/ScreenMirror.tsx:248-252 | Cleanup leaves neither client nor decoder live and does not touch the flags. |
| MirrorSession.ErrorText | src/components/ScreenMirror.tsx:241 | The shown error is the failure's own message when it has one, and is never empty. |
| MirrorSession.Catch | src/components/ScreenMirror.tsx:238-244 | A failure is reported (error set, loading cleared) only by an active attempt. A stale attempt changes nothing. |
| MirrorSession.LogLine | src/components/ScreenMirror.tsx:188-195 | A log line sets the warning exactly when it contains `INJECT_EVENTS permission`, and changes nothing else. |
| MirrorSession.Dismiss | src/components/ScreenMirror.tsx:356 | Closing the banner clears the warning and nothing else. |
| MirrorSession.Interrupted | src/components/ScreenMirror.tsx:248-252 | The cleanup, followed on a retry by the next start, leaves nothing live. On a retry the error is cleared and loading set. |
| MirrorSession.AttemptOutcome | src/components/ScreenMirror.tsx:164-244 | An uninterrupted attempt stops loading and clears the warning. Either it reports the message of the first failing step and stores no decoder; the steps are fetch, push, server start, and the video stream with its renderer and decoder, and a missing message gives the default text. Or it ends with no error, a live client, and a live decoder exactly when a video stream came. Once the server has started the client stays live, even when the video set-up fails. |
| MirrorSession.Attempt | src/components/ScreenMirror.tsx:164-244 | The corrected attempt (with an `active` check after the video await) never leaves the warning set. Only an attempt interrupted at an await it reaches is left loading, and such an attempt never reports an error. |
| MirrorSession.AttemptAsWritten | src/components/ScreenMirror.tsx:164-244 | The code as written never leaves the warning set. Interrupted at the video await after the server started, and with the video set-up not failing, it still clears `loading`, leaves the client closed, and holds a live decoder whenever a video stream came. |
| MirrorSession.InterruptedAttemptIsSilent | src/components/ScreenMirror.tsx:172-199 | The corrected attempt, interrupted at any await it reaches (the video await included), reports no error and leaves loading set. It leaves neither client nor decoder live. |
| MirrorSession.InterruptedAsWrittenIsSilent | src/components/ScreenMirror.tsx:172-199 | The code as written is equally silent when interrupted at the fetch, push or start await it reaches. |
| MirrorSession.StaleAttemptLeaksDecoder | src/components/ScreenMirror.tsx:200-236 | The code as written: an attempt interrupted during the video await still leaves a live decoder and clears `loading`, unlike the corrected attempt. |
| MirrorSession.AttemptAgreesAsWritten | src/components/ScreenMirror.tsx:164-236 | Except for an interruption during the video await, the corrected attempt and the code as written end in the same state. |
| MirrorSession.CleanupIdempotent | src/components/ScreenMirror.tsx:248-252 | Running the cleanup twice is the same as running it once. |
| MirrorSession.BannerRules | src/components/ScreenMirror.tsx:348 | A reported failure and a new start both hide the permission banner. After a log line the banner shows exactly when there is no error and the warning was set or the line contains the marker. |
| Explorer.Segments | src/components/FileExplorer.tsx:84 | Every non-empty segment of a split path is a non-empty name without a slash. |
| Explorer.DropLast | src/components/FileExplorer.tsx:85 | `pop` removes exactly the last segment; on no segments it leaves none. |
| Explorer.RenderSegments | src/components/FileExplorer.tsx:84-86 | Joining valid segments under a leading slash and splitting again gives the segments back, and the joined path is canonical. |
| Explorer.ChildPath | src/components/FileExplorer.tsx:78 | Joining a valid name onto a path, with `/name` under the root, adds exactly that name as the last segment. |
| Explorer.ParentPath | src/components/FileExplorer.tsx:84-86 | The parent path starts with `/`, is canonical, and has the path's segments without the last one. |
| Explorer.UpAfterDown | src/components/FileExplorer.tsx:78-86 | For a canonical path and a valid name, the parent of the child path is the path itself. |
| Explorer.ChildCanonical | src/components/FileExplorer.tsx:78 | A valid child of a canonical path is canonical. |
| Explorer.HomeCanonical | src/components/FileExplorer.tsx:30 | The start and Home directory `/sdcard` is canonical. |
| Explorer.DirectoryModeIsBit | src/components/FileExplorer.tsx:52 | On a 32-bit mode, the directory test is exactly `(mode & 0x4000) !== 0`. |
| Explorer.ToFileEntry | src/components/FileExplorer.tsx:50-55 | A row keeps the entry's name, size and time, and is a directory exactly when the mode has bit 0x4000. |
| Explorer.DirectoryModeExamples | src/components/FileExplorer.tsx:52 | The 0x4000 test tells a directory (0o040755) from a file (0o100644) and a symbolic link. It also counts a block device and a socket as directories, because their type bits include 0x4000. |
| Explorer.Rows | src/components/FileExplorer.tsx:48-55 | The mapped rows never include `.` or `..` and are no more than the entries. |
| Explorer.RowsSingle | src/components/FileExplorer.tsx:48-55 | One entry gives its own row when it is not `.`/`..`, and nothing when it is. |
| Explorer.RowsAppend | src/components/FileExplorer.tsx:48-55 | The rows of two runs of entries are the first run's rows followed by the second's. With `RowsSingle` this means one row per shown entry, in `readdir` order. |
| Explorer.RowsMembership | src/components/FileExplorer.tsx:48-55 | A row appears exactly when some entry other than `.`/`..` maps to it. |
| Explorer.CompareRowsSign | src/components/FileExplorer.tsx:56-59 | The comparator puts a directory before a file and a file after a directory, is antisymmetric, and calls any two rows of the same kind equal whatever their names. |
| Explorer.NotAfterIsTotalPreorder | src/components/FileExplorer.tsx:56-59 | The order the comparator induces is total and transitive. |
| Explorer.SortIsDirectoriesFirst | src/components/FileExplorer.tsx:48-59 | Sorting the rows with the comparator gives the directories in their `readdir` order followed by the files in theirs. |
| Explorer.DirectoriesFirst | src/components/FileExplorer.tsx:56-59 | The stable sort under the comparator is a permutation, ordered by the comparator, that keeps the `readdir` order among directories and among files. |
| Explorer.OrderedIsDirsThenFiles | src/components/FileExplorer.tsx:56-59 | Any sequence ordered by the comparator is its directories followed by its files. |
| Explorer.StableSortIsDirectoriesFirst | src/components/FileExplorer.tsx:57 | Because same-kind rows compare equal, every ordering by the comparator that keeps `readdir` order within each kind is this one result. |
| Explorer.Listing | src/components/FileExplorer.tsx:48-59 | The sorted table has no `.`/`..`, is a permutation of the remaining entries' rows, and lists every directory before every file, each kind in `readdir` order. |
| Explorer.ListingDirectoryBit | src/components/FileExplorer.tsx:52 | Each row comes from a shown entry of the same name, and is a directory exactly when that entry's mode has bit 0x4000. |
| Explorer.ListFiles | src/components/FileExplorer.tsx:42-70 | A failed listing changes nothing. A successful one moves to the target path and shows a permutation of its rows. |
| Explorer.FilePath | src/components/FileExplorer.tsx:93 | The path used for download, preview and upload adds the file's name as one more segment of the current path. |
| Explorer.NavigateTo | src/components/FileExplorer.tsx:77-80 | A failed listing changes nothing. A successful one shows the child's rows and adds the entered name as one more path segment. |
| Explorer.NavigateUp | src/components/FileExplorer.tsx:82-88 | At `/` or after a failed listing nothing changes. Otherwise a successful listing moves to a canonical path with the last segment dropped. |
| Explorer.GoHome | src/components/FileExplorer.tsx:180 | A failed listing changes nothing. A successful one moves to `/sdcard`, a canonical path. |
| Explorer.PathChangesOnlyOnSuccess | src/components/FileExplorer.tsx:60-66 | The current path only changes when a listing succeeds; a failure keeps the files too. |
| Explorer.NavigateUpEffect | src/components/FileExplorer.tsx:82-88 | Going up from `/` changes nothing. Elsewhere a successful listing moves to a path that starts with `/` and has one segment fewer. |
| Explorer.NavigationKeepsCanonical | src/components/FileExplorer.tsx:77-88 | Entering a valid name, going up and going home all keep the current path canonical. |
| Explorer.NavigateUpUndoesNavigateTo | src/components/FileExplorer.tsx:77-88 | From a canonical path, entering a directory and going up returns to the same path when both listings succeed. |
| Explorer.IsImage | src/components/FileExplorer.tsx:37-40 | A name is an image exactly when its lower-cased form ends with one of the seven listed extensions. |
| Explorer.IsImageIgnoresCase | src/components/FileExplorer.tsx:37-40 | A name and its lower-cased form are both images or both not. |
| Explorer.EndsWithAny | src/components/FileExplorer.tsx:39 | `some(endsWith)` holds exactly when one of the extensions is a suffix. |
| Explorer.Extension | src/components/FileExplorer.tsx:129 | `split('.').pop()` is a dot-free suffix of the name, preceded by a dot unless it is the whole name. |
| Explorer.ExtensionIsLastDot | src/components/FileExplorer.tsx:129 | Only one suffix fits that description, the text after the last dot, so it determines `Extension`. |
| Explorer.MimeType | src/components/FileExplorer.tsx:129 | Every preview MIME type starts with `image/`. |
| Explorer.MimeTypeOfImage | src/components/FileExplorer.tsx:26-40 | For an image, a case-insensitive `.svg` gives `image/svg+xml`. Any other image gives `image/` plus its own extension with case kept, and that extension lower-cases to one of the six other listed ones. |
| Apps.PackageLines | src/components/AppManager.tsx:33-34 | Exactly the lines starting with `package:` are kept, each as often as it occurs. |
| Apps.ParsePackages | src/components/AppManager.tsx:33-43 | There is one record per package line, named by the trimmed text after the prefix and flagged with the list it came from. |
| Apps.ToAppsOfPackageLines | src/components/AppManager.tsx:35 | On a line starting with `package:`, replacing the first `package:` and trimming gives the trimmed rest of the line. |
| Apps.ByNameIsTotalPreorder | src/components/AppManager.tsx:47 | A collation that is total and transitive orders records by package name as a total preorder. |
| Apps.SortApps | src/components/AppManager.tsx:47 | Sorting by package name is a permutation. |
| Apps.SortAppsStable | src/components/AppManager.tsx:47 | Packages whose names the collation calls equal keep their relative order. |
| Apps.ListApps | src/components/AppManager.tsx:28-53 | A failed command leaves the list shown. Otherwise the new list is a permutation of the user packages, concatenated with the system packages when those are requested. |
| Apps.UserOnlyWithoutShowSystem | src/components/AppManager.tsx:32-39 | Without `showSystem` every listed app is a user app. |
| Apps.ListAppsSorted | src/components/AppManager.tsx:47 | A new list is sorted by package name under the collation. |
| Apps.FilterApps | src/components/AppManager.tsx:89-91 | An app is kept exactly when its lower-cased name includes the lower-cased filter, as often as it occurs in the list. The result is a subsequence of the list. |
| Apps.EmptyFilterKeepsAll | src/components/AppManager.tsx:89-91 | An empty filter keeps the whole list. |
| Apps.UninstallSucceededIff | src/components/AppManager.tsx:63 | An uninstall counts as successful exactly when `Success` occurs somewhere in its output. |
| Apps.UninstallOfferedByList | src/components/AppManager.tsx:186 | No package from the system list is offered for uninstalling; every package from the user list is. |
| Strings.IncludesIffOccurs | src/components/AppManager.tsx:90 | `includes` holds exactly when the pattern occurs at some index. |
| Strings.IndexOf | src/components/AppManager.tsx:35 | `indexOf` gives the first index where the pattern occurs, or none when it occurs nowhere. |
| Strings.ReplaceFirst | src/components/AppManager.tsx:35 | `replace` with a string pattern replaces a leading occurrence, and leaves a string without the pattern unchanged. |
| Strings.Lower | src/components/FileExplorer.tsx:38 | Lower-casing keeps the length and maps each character on its own. |
| Strings.Trim | src/components/AppManager.tsx:35 | `trim` gives the slice of the input with no white space at either end, everything cut away being white space. |
| Strings.Split | src/components/AppManager.tsx:33 | `split` gives at least one piece, and no piece contains the separator. |
| Strings.JoinSplit | src/components/FileExplorer.tsx:84-86 | Splitting and joining on the same separator gives the string back. |
| Strings.SplitJoin | src/components/FileExplorer.tsx:84-86 | Joining separator-free pieces and splitting again gives the pieces back. |
| Sorting.InsertionSort | src/components/AppManager.tsx:47 | The sort is a permutation of its input. |
| Sorting.InsertionSortStable | src/components/AppManager.tsx:47 | Under a transitive comparator the sort is stable: the elements that compare equal to any given one leave in the order they entered. |
| Sorting.InsertionSortSorted | src/components/AppManager.tsx:47 | Under a total preorder, the sort's output is sorted. |
| I18n.Detect | src/lib/i18n.tsx:121-130 | A saved `en` or `zh` is used as is. Otherwise the language is Chinese exactly when the browser language starts with `zh`. |
| I18n.Mount | src/lib/i18n.tsx:119 | Before detection the language is English, whatever is stored. |
| I18n.AfterDetect | src/lib/i18n.tsx:121-130 | Detection changes the language only, not what is stored. |
| I18n.SetLang | src/lib/i18n.tsx:132-135 | Setting a language uses it and stores its code. |
| I18n.DetectReadsCode | src/lib/i18n.tsx:122-125 | A stored code is read back as the language it encodes. |
| I18n.ChoicePersists | src/lib/i18n.tsx:119-135 | After setting a language, a new mount and detection come back to that language whatever the browser locale. |
| I18n.LocaleDecides | src/lib/i18n.tsx:126-129 | With nothing usable saved, only a `zh` locale gives Chinese. |
| I18n.Table | src/lib/i18n.tsx:7-102 | Each language's table defines exactly the 45 message keys. |
| I18n.TablesShareKeys | src/lib/i18n.tsx:7-102 | The English and Chinese tables have the same key set. |
| I18n.Message | src/lib/i18n.tsx:138 | A message is defined exactly for the message keys, in whichever language is in use. |
| I18n.MessagesFollowChoice | src/lib/i18n.tsx:132-138 | After setting a language, every message comes from that language's table. |

## Left out

- Device I/O is not modelled: WebUSB, ADB transport and authentication, the sync protocol, `pm` subprocesses, downloading and pushing the scrcpy server, and the video decoder and renderer. Each appears only as the result it delivers.
- The scrcpy start options (version 3.3.4, server path, maximum size 1024, bit rate 4 000 000) are passed to the library unchanged, so nothing here depends on them.
- Two start attempts running interleaved are not modelled. One attempt is modelled with one interruption at an await, optionally followed by the next attempt's synchronous start.
- Overlapping listings are not modelled. `listApps` and `listFiles` write their result when they finish and never check whether a newer call was issued, so a slow `pm list packages -s` can land after `showSystem` was switched off, and a slow `readdir` can overwrite a newer path. `Apps.UserOnlyWithoutShowSystem` and `Explorer.NavigateUpUndoesNavigateTo` are facts about one call each, not about what the screen shows under such races.
- Log lines arriving while an attempt awaits the server or the video stream are not interleaved with the attempt. `MirrorSession.AttemptOutcome`'s cleared warning holds for the attempt taken on its own; a log line (`MirrorSession.LogLine`) can set the warning again at any point.
- The canvas mouse listeners that call `injectTouch` (ScreenMirror.tsx:219-231, including the `buttons === 1` filter on moves) are browser event wiring. They are not modelled.
- `requestAnimationFrame`, the DOM transform, CSS and React re-rendering are reduced to the frame-id set and the `applied` offset.
- Floating point is not modelled: touch arithmetic is exact `real` arithmetic, and only the zero-divisor cases keep their JavaScript values.
- Strings.Lower: lower-cases ASCII letters only, not the full Unicode mapping of `toLowerCase`.
- `localeCompare` is a parameter. It is assumed to be a total preorder wherever sortedness is claimed.
- `localStorage` and `navigator.language` are inputs. The context default outside a provider is not modelled.
- The shell tab, page layout, APK installation, file download and preview blobs, `disable-user`, and launching an app are not modelled, because they are device I/O.

## Findings

| source | as written | input that shows it | evidently intended | confidence | as-written member | corrected member |
|---|---|---|---|---|---|---|
| src/components/ScreenMirror.tsx:200-236 | After `await client.videoStream` there is no `active` check. An attempt whose window was closed or retried while waiting still creates a decoder, stores it in the ref, and clears `loading`. | Fetch, push and start all succeed; a retry happens while the video stream is awaited; the stream arrives. | Like every earlier await, stop when `active` is false, so that a stale attempt creates nothing and leaves the next attempt's `loading` alone. | not executed; medium (the video promise might reject once the client is closed) | MirrorSession.AttemptAsWritten (shown by MirrorSession.StaleAttemptLeaksDecoder) | MirrorSession.Attempt (proved by MirrorSession.InterruptedAttemptIsSilent) |
