# Remote file browser: a Dafny model

This project models the file browser of a remote terminal session
(`web/src/components/access/FileSystem.js`). The browser shows one remote
directory as a table and lets the user list, enter and leave directories,
select rows, delete, rename, create directories, upload and download.
The model keeps the component's state fields: `currentDirectory`, the
directory input box, the rows (`files`), `loading`, `selectedRowKeys`,
`selectedRow`, the right-click menu anchor (`dropdown`) and the three
dialogs. Each event handler the component defines is one method of the
class `Browser.FileSystem`. One of them, the upload status handler, is
never attached to the upload widget (see "Left out").

The server is not modelled. Each handler that calls it receives the reply
as an argument: `Ok(data)` for `code == 1`, `Err(message)` for any other
code, and `Thrown` for a request whose promise rejects. The model records
what the browser does in two logs: the `requests` it sends, in order, and
the `toasts` it shows.

Files:
- `remote.dfy`: replies, requests, toasts and upload statuses.
- `paths.dfy`: path arithmetic, namely the parent path, the file name, the
  rename and mkdir targets, and the empty-key rule.
- `entries.dfy`: rows, the listing with its synthetic `..` row, the
  selection filter, the menu's enable rules and the column sorters.
- `batch.dfy`: the batch-delete loop as a function, with its lemmas.
- `renaming.dfy`: the table patch after a rename, both as written and as
  intended (see Findings).
- `browser.dfy`: the component class and the all-or-nothing listing
  transition.

In several places the code does not do what a user of such a browser
would expect. Each item below gives the expected behaviour, then what the
code does and what the model does:
- A right-click on a row that is not selected should make it the only
  selection. The code replaces the selected keys only when no key is
  selected; otherwise it keeps them, while `selectedRow` still becomes the
  clicked row. The model does what the code does.
- Delete with an empty selection should be refused with a warning. The code
  shows the warning and then carries on; once confirmed, it still reloads
  the directory. The model does what the code does.
- Only one dialog should be open at a time. Nothing in the code enforces
  that, and nothing in the model does.
- A failing delete should never cancel the other deletions or the reload
  that follows them. That holds for failures the server reports. A request
  that throws, though, ends the handler: the later keys are not attempted
  and the directory is not reloaded. The model does what the code does.
- Every failure should return the browser to rest. A mkdir request that
  throws is swallowed instead, and leaves the dialog open with its spinner
  on. The model does what the code does.
- The mkdir target is the current directory, `/` and the name, with no
  check for a trailing slash, so mkdir in the root asks for `//name`. The
  rename target adds the slash only when it is missing. The model builds
  both targets as the code does.
- A successful rename should patch the renamed row in place. The code's
  loop never finds the row, so the table is not patched (see Findings).
  Here the model departs from the code: `Browser.FileSystem.RenameOk`
  applies the intended patch, to the table and to the selected row when it
  is the renamed row, and the loop as written is modelled beside it.

## Model

| member | source | states |
|---|---|---|
| Remote.FailureToasts | web/src/components/access/FileSystem.js:112-115 | a reply yields exactly one toast, its own message, iff it is an application failure |
| Paths.LastIndexOf | web/src/components/access/FileSystem.js:399 | -1 iff the character is absent; otherwise that index holds the character and none follows it |
| Paths.ParentPath | web/src/components/access/FileSystem.js:399 | the parent is the prefix of the directory ending just before its last `/`, or "" when there is no `/` |
| Paths.ListedDirectory | web/src/components/access/FileSystem.js:108-110 | the listed directory is never empty: an empty key means the root, any other key is kept |
| Paths.FileName | web/src/components/access/FileSystem.js:573 | the file name is a suffix of the path without a `/`: the whole path when it has no `/`, otherwise the text right after a `/`, hence after the last one |
| Paths.SplitPath | web/src/components/access/FileSystem.js:573 | parent + `/` + file name gives back the path |
| Paths.ParentOfChild | web/src/components/access/FileSystem.js:394-406 | the parent of `dir/name` is `dir` and its file name is `name`, so going into a child and back up returns |
| Paths.NavigateUpExamples | web/src/components/access/FileSystem.js:396-400 | going up from `/home/user` gives `/home`; going up from `/a` gives "", which is listed as `/` |
| Paths.ParentOfTrailingSlash | web/src/components/access/FileSystem.js:399 | going up from a directory typed with a trailing slash, `d/`, lists `d` again |
| Paths.RenameTarget | web/src/components/access/FileSystem.js:546-553 | the rename target always contains `/` (so it is never `..`), and its length shows one slash added only when missing |
| Paths.RenameTargetParts | web/src/components/access/FileSystem.js:546-553 | the rename target lies in the current directory and its file name is exactly the typed name |
| Paths.MkdirTarget | web/src/components/access/FileSystem.js:492-494 | the mkdir target has a `/` right after the current directory |
| Paths.MkdirTargetParts | web/src/components/access/FileSystem.js:492-494 | the mkdir target is the child `name` of the current directory |
| Paths.MkdirVersusRename | web/src/components/access/FileSystem.js:492-494 | mkdir and rename build the same path unless the directory ends in `/`, where mkdir doubles the slash (`//name` at the root) |
| Entries.Keyed | web/src/components/access/FileSystem.js:119-121 | a server item's row key is its path, and its name, flags, size, modification time and mode are the item's own |
| Entries.Listing | web/src/components/access/FileSystem.js:117-125 | the rows are the items in server order, each keyed by its path, preceded by the `..` row iff the directory is not the root |
| Entries.ListingParentShape | web/src/components/access/FileSystem.js:123-125 | when the server lists no `..` path, a listing has exactly one `..` row, the first, iff it is not of the root |
| Entries.WithoutParent | web/src/components/access/FileSystem.js:366-369 | the checkbox filter keeps exactly the keys other than `..` and changes nothing when `..` is absent |
| Entries.WithoutParentAppend | web/src/components/access/FileSystem.js:367 | the filter works key by key, so the kept keys stay in their order |
| Entries.WithoutParentIdempotent | web/src/components/access/FileSystem.js:367 | filtering twice is filtering once |
| Entries.DownloadEnabled | web/src/components/access/FileSystem.js:161-166 | download is enabled iff exactly one key is selected and the selected row is one that double-click would not open (neither directory nor link) |
| Entries.DownloadTarget | web/src/components/access/FileSystem.js:59-61 | a download fetches the selected row's key |
| Entries.CompareName | web/src/components/access/FileSystem.js:268-277 | 0 whenever either row is `..`; otherwise the locale order of the names |
| Entries.CompareSize | web/src/components/access/FileSystem.js:290-299 | 0 whenever either row is `..`; otherwise negative, zero or positive as the first size is smaller, equal or larger |
| Entries.CompareModTime | web/src/components/access/FileSystem.js:304-313 | 0 whenever either row is `..`; otherwise the locale order of the modification times |
| Entries.SortersAntisymmetric | web/src/components/access/FileSystem.js:268-313 | the three sorters are antisymmetric when the locale order is |
| Batch.RunRemovals | web/src/components/access/FileSystem.js:81-90 | the delete loop sends at most one request per key, only `rm` requests and never for `..`, and reports at most one failure per request |
| Batch.RemovalsIsolated | web/src/components/access/FileSystem.js:81-90 | when no request throws, one `rm` goes out per selected key except `..`, in selection order, and exactly the failed ones are reported, in order |
| Batch.RemovalsIgnoreParent | web/src/components/access/FileSystem.js:83-85 | deleting a selection with `..` behaves exactly like deleting it without `..` |
| Batch.AbortIsFinal | web/src/components/access/FileSystem.js:86 | after a request has thrown, no later key is attempted |
| Batch.ThrowStops | web/src/components/access/FileSystem.js:86 | a throwing request for the j-th key ends the loop there |
| Batch.PartialFailureExample | web/src/components/access/FileSystem.js:81-90 | deleting `a`,`b` where `a` fails and `b` succeeds sends both requests and reports only `a`'s message |
| Renaming.RenamedFiles | web/src/components/access/FileSystem.js:568-576 | the intended patch keeps the length and every row with another key; with unique keys it patches exactly the renamed row; without that key it changes nothing |
| Renaming.RenamedFirstOnly | web/src/components/access/FileSystem.js:568-576 | only the first row keyed with the old name is renamed, as the loop's `break` does; every other row, later rows with the same key included, is left as it was |
| Renaming.RenamedSelection | web/src/components/access/FileSystem.js:568-576 | the selected row after the intended patch: renamed exactly when it is the first row keyed with the old name (with unique keys, whenever its key is the old name), otherwise untouched, and a selected row of the table is still a row of the patched table |
| Renaming.PatchRenamed | web/src/components/access/FileSystem.js:568-576 | the intended patch loop computes RenamedFiles |
| Renaming.PatchRenamedAsWritten | web/src/components/access/FileSystem.js:569-576 | the loop as written returns the table unchanged |
| Renaming.PatchAsWrittenMissesRow | web/src/components/access/FileSystem.js:570 | whenever the renamed row is present and the name changes, the intended patch changes the table, and the loop as written does not |
| Renaming.RenamedFilesKeepShape | web/src/components/access/FileSystem.js:568-576 | the rename patch keeps the one-`..`-row-first shape of the table |
| Browser.Listed | web/src/components/access/FileSystem.js:103-140 | a listing is all-or-nothing: on success the directory and the input box become the listed directory, the table holds one row per item plus `..` unless at the root, and the selection is empty; otherwise the view is unchanged |
| Browser.ListedInvariants | web/src/components/access/FileSystem.js:127-133 | a listing never puts `..` into the selection, keeps the selected row a row of the table, clears the selection on success, changes nothing on failure, and keeps the `..` shape of the table |
| Browser.DoubleClickTarget | web/src/components/access/FileSystem.js:394-406 | double-click lists something iff the row is a directory or a link: its own path, or for the `..` row the parent path of the current directory |
| Browser.DoubleClickParentGoesUp | web/src/components/access/FileSystem.js:396-400 | double-clicking `..` in `dir/name` lists `dir`; from a top-level directory it lists the root, which has no `..` row |
| Browser.FileSystem.constructor | web/src/components/access/FileSystem.js:37-48 | the initial state: the root, no rows, nothing selected, menu and dialogs closed |
| Browser.FileSystem.LoadFiles | web/src/components/access/FileSystem.js:103-140 | one `ls` request for the normalised key. On success the view becomes the listing; on failure or throw it is unchanged and a failure shows its message. `loading` is false at the end on every path. The selection stays free of `..` and the `..` shape is kept |
| Browser.FileSystem.Refresh | web/src/components/access/FileSystem.js:99-101 | lists the current directory again (as mounting does) |
| Browser.FileSystem.EditDirectoryInput | web/src/components/access/FileSystem.js:194-198 | typing changes only the input box |
| Browser.FileSystem.SubmitDirectoryInput | web/src/components/access/FileSystem.js:200-202 | Enter lists what the box holds (the box shows `currentDirectoryInput`, line 331) |
| Browser.FileSystem.SelectionChange | web/src/components/access/FileSystem.js:366-369 | the selected keys become the new keys without `..` |
| Browser.FileSystem.Click | web/src/components/access/FileSystem.js:385-392 | for a row of the table: a click on `..` changes nothing; any other click selects exactly that row |
| Browser.FileSystem.DoubleClick | web/src/components/access/FileSystem.js:394-407 | for a row of the table: lists the double-click target; on a plain file nothing changes and no request is sent |
| Browser.FileSystem.ContextMenu | web/src/components/access/FileSystem.js:408-427 | for a row of the table: a right-click on `..` changes nothing. Any other right-click selects the row, keeps the selected keys unless there were none, and opens the menu at the click position |
| Browser.FileSystem.ClickOutside | web/src/components/access/FileSystem.js:430-431 | the next left click anywhere closes the menu |
| Browser.FileSystem.Menu | web/src/components/access/FileSystem.js:153-171 | the menu exists iff it is open; rename is enabled iff exactly one key is selected (`Entries.RenameEnabled`), download iff moreover the selected row is neither a directory nor a link (`Entries.DownloadEnabled`), and delete always |
| Browser.FileSystem.ClickDownload | web/src/components/access/FileSystem.js:175-176 | an enabled download button fetches the selected row's file; a disabled one does nothing |
| Browser.FileSystem.ClickRename | web/src/components/access/FileSystem.js:178-184 | an enabled rename button opens the rename dialog |
| Browser.FileSystem.RemoveAll | web/src/components/access/FileSystem.js:81-90 | the confirmed delete loop logs exactly RunRemovals' requests and toasts |
| Browser.FileSystem.Rmdir | web/src/components/access/FileSystem.js:63-97 | warns on an empty selection without stopping. Unconfirmed, nothing else happens. Confirmed, it runs the delete loop and then reloads the current directory exactly once, unless a request threw |
| Browser.FileSystem.OpenMkdir | web/src/components/access/FileSystem.js:337-342 | opens the mkdir dialog |
| Browser.FileSystem.CancelMkdir | web/src/components/access/FileSystem.js:518-522 | closes the mkdir dialog |
| Browser.FileSystem.MkdirOk | web/src/components/access/FileSystem.js:487-516 | an empty name does nothing. Otherwise it asks for `dir/name`: success reloads the whole directory, failure shows the message, and both close the dialog; a throw leaves the dialog open and spinning |
| Browser.FileSystem.CancelRename | web/src/components/access/FileSystem.js:595-599 | closes the rename dialog |
| Browser.FileSystem.RenameOk | web/src/components/access/FileSystem.js:539-593 | an empty name does nothing. An unchanged path reports success without a request. Otherwise one rename request goes out, success patches the renamed row in the table and, when it is that row, the selected row, and the dialog closes on every path |
| Browser.FileSystem.SendRename | web/src/components/access/FileSystem.js:560-582 | the rename request, then on success the patch of the table and of the selected row, or the message on failure |
| Browser.FileSystem.OpenUpload | web/src/components/access/FileSystem.js:346-351 | opens the upload dialog |
| Browser.FileSystem.CancelUpload | web/src/components/access/FileSystem.js:468-472 | closes the upload dialog |
| Browser.FileSystem.UploadChange | web/src/components/access/FileSystem.js:142-151 | the handler the component defines but never attaches: if called, a finished upload would show success, a failed one an error, and one still uploading nothing; the running browser shows none of these toasts |
| Browser.FileSystem.UploadOk | web/src/components/access/FileSystem.js:461-466 | closes the upload dialog and reloads the current directory |

## Findings

| source | as written | input that shows it | evidently intended | confidence | as-written member | corrected member |
|---|---|---|---|---|---|---|
| web/src/components/access/FileSystem.js:570 | the patch loop tests `files['key'] === params['oldName']`, a property of the array itself, which is always undefined | a table with a row keyed `/a/x`, renamed to `y` in `/a`, and the server answers success: the row keeps key, path and name `/a/x`, `/a/x`, `x` | test `files[i]['key']`, so the row becomes `/a/y`, `/a/y`, `y` | high (not executed) | Renaming.PatchRenamedAsWritten | Renaming.PatchRenamed |

`Browser.FileSystem.RenameOk` uses the corrected patch.

## Left out

- Rendering: the JSX, the file-type icons, the size display and the row highlight class are display only.
- Delete confirmation: the dialog's title (the file name or the item count) is display only. The user's choice is the `confirmed` argument.
- Click-outside listener: registering and removing the document listener and the drawer style changes are browser side effects. Only its effect on the menu is modelled, as the separate event `ClickOutside`. In the source, the left click on a row or on a menu button that follows a right-click also closes the menu; here `Click`, `ClickDownload` and `ClickRename` leave `dropdown` alone, and the caller sends `ClickOutside` for that click as well.
- Transport: the HTTP module, URL encoding of the query, the download and upload transfers and the auth token are not modelled. Requests are logged as values, and the session id is only stored.
- Timing: each handler runs to completion, with state updates applied in order. The reload after mkdir, which the source does not await, is treated as finished before the dialog closes.
- `localeCompare` is a parameter of the name and time sorters. The table widget's sorting algorithm and sort directions are not modelled; only the comparators are.
- `isEmpty` is modelled only for the empty string. An undefined or null key is not modelled.
- `getFileName` is modelled as the text after the last `/`.
- The synthetic `..` row has no `isLink`, `size`, `modTime` or `mode` in the source. Here those read as false, 0, "" and "".
- Browser.FileSystem.RenameOk: requires at least one selected key. The rename dialog opens only from the menu button, which is enabled only with exactly one key selected.
- Batch.RunRemovals: the server's answer to `rm` depends only on the key, not on the earlier deletions.
- Browser.FileSystem.LoadFiles: the one-`..`-row shape of the table is promised only when the server lists no path equal to `..`.
- Renaming.RenamedSelection: rows are values here, not shared objects. The selected row counts as the renamed row when it equals it field for field.
- Browser.FileSystem.RemoveAll: collects the requests and toasts of the loop and appends them to the logs when the loop ends. The source shows each toast as soon as its reply arrives. The final logs are the same.
- Browser.FileSystem.UploadChange: the upload widget (lines 474-477) has no change handler, so the program never runs this one and never shows the upload success or failure toasts. The method models the handler as defined, and nothing in the model calls it.
- The OK buttons' loading state: the mkdir and rename dialogs share `confirmLoading`, and an OK button ignores clicks while it is loading. After a thrown mkdir leaves it set, neither dialog's OK does anything again in the program. `MkdirOk` and `RenameOk` do not read `confirmLoading`, so the model still lets them run.
- The forms: resetting the fields and the rename field's initial value are not modelled.
