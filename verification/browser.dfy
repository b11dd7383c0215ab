/** The file-browser component: the state of one browsing session and one
    method per handler. Remote calls are inputs: each handler that talks to
    the server receives the reply it gets. Handlers run to completion one
    after the other. */
module Browser {
  import opened Remote
  import opened Paths
  import opened Entries
  import opened Batch
  import opened Renaming

  /** Where the right-click menu is open, if it is. */
  datatype Dropdown = Hidden | Shown(x: int, y: int)

  /** The enabled state of the right-click menu's buttons. */
  datatype MenuItems = MenuItems(download: bool, rename: bool, delete: bool)

  /** The navigation and selection part of the state: the current directory,
      the directory input box, the table rows, the selected keys and the
      selected row. */
  datatype View = View(directory: string, input: string, files: seq<Entry>,
                       keys: seq<string>, row: Option<Entry>)

  /** The view after a listing request for `key` got `reply`. Listing is
      all-or-nothing: on success the table, the directory and the input box
      move to the listed directory and the selection is cleared; otherwise
      nothing changes. */
  function Listed(v: View, key: string, reply: Reply<seq<Item>>): (w: View)
    ensures reply.Ok? ==>
              && w.directory == w.input == ListedDirectory(key) && w.directory != ""
              && |w.files| == |reply.data| + (if w.directory == Root then 0 else 1)
              && w.keys == [] && w.row.None?
    ensures !reply.Ok? ==> w == v
  {
    if reply.Ok? then
      var dir := ListedDirectory(key);
      View(dir, dir, Listing(dir, reply.data), [], None)
    else v
  }

  /** `..` is never selected, neither among the keys nor as the row, and
      the selected row, if any, is one of the table's rows. */
  predicate SelectionClean(v: View) {
    && ParentKey !in v.keys
    && (v.row.Some? ==> !IsParent(v.row.value) && v.row.value in v.files)
  }

  /** A listing keeps the selection clean and, given a server that lists no
      `..` path, keeps the table's `..` shape for its directory. */
  lemma ListedInvariants(v: View, key: string, reply: Reply<seq<Item>>)
    requires SelectionClean(v) && v.directory != ""
    ensures var w := Listed(v, key, reply);
            SelectionClean(w) && w.directory != ""
    ensures ParentShape(v.directory, v.files) && (reply.Ok? ==> NoParentItem(reply.data)) ==>
              var w := Listed(v, key, reply);
              ParentShape(w.directory, w.files)
    ensures reply.Ok? ==> Listed(v, key, reply).keys == []
    ensures !reply.Ok? ==> Listed(v, key, reply) == v
  {
    if reply.Ok? && NoParentItem(reply.data) {
      ListingParentShape(ListedDirectory(key), reply.data);
    }
  }

  /** The directory a double-click lists, if any: the parent of the current
      directory for the row whose path is `..`, the row's own path for other
      directories and links, nothing for plain files. */
  function DoubleClickTarget(dir: string, record: Entry): (t: Option<string>)
    ensures t.Some? <==> record.isDir || record.isLink
    ensures t.Some? && record.path != ParentKey ==> t.value == record.path
    ensures t.Some? && record.path == ParentKey ==> t.value == ParentPath(dir)
  {
    if record.isDir || record.isLink then
      if record.path == ParentKey then Some(ParentPath(dir)) else Some(record.path)
    else None
  }

  /** Double-clicking `..` in `dir/name` lists `dir`, and in a top-level
      directory `/name` lists the root, which shows no `..` row. */
  lemma {:induction false} DoubleClickParentGoesUp(dir: string, name: string, data: seq<Item>)
    requires '/' !in name
    requires NoParentItem(data)
    ensures DoubleClickTarget(dir + "/" + name, ParentEntry) == Some(dir)
    ensures dir == "" ==> ListedDirectory(dir) == Root
    ensures dir == "" ==> forall i | 0 <= i < |Listing(Root, data)| :: !IsParent(Listing(Root, data)[i])
  {
    ParentOfChild(dir, name);
    ListingParentShape(Root, data);
  }

  class FileSystem {
    const sessionId: string
    var currentDirectory: string
    var currentDirectoryInput: string
    var files: seq<Entry>
    var loading: bool
    var selectedRowKeys: seq<string>
    var selectedRow: Option<Entry>
    var dropdown: Dropdown
    var mkdirVisible: bool
    var renameVisible: bool
    var uploadVisible: bool
    var confirmLoading: bool
    /** The requests sent so far, in order. */
    var requests: seq<Request>
    /** The toasts shown so far, in order. */
    var toasts: seq<Toast>

    function Snapshot(): View
      reads this
    {
      View(currentDirectory, currentDirectoryInput, files, selectedRowKeys, selectedRow)
    }

    /** The selection never holds `..`, the selected row is a row of the
        table, and the current directory is never "". */
    ghost predicate Valid()
      reads this
    {
      SelectionClean(Snapshot()) && currentDirectory != ""
    }

    /** The table has one `..` row, first, iff the directory is not the root. */
    ghost predicate ListingShape()
      reads this
    {
      ParentShape(currentDirectory, files)
    }

    /** The initial state of a browser attached to `sessionId`: the root,
        an empty table, nothing selected, nothing open. Mounting then lists
        the current directory, as `Refresh` does. */
    constructor (sessionId: string)
      ensures Valid() && ListingShape()
      ensures this.sessionId == sessionId
      ensures currentDirectory == Root && currentDirectoryInput == Root
      ensures files == [] && !loading && selectedRowKeys == [] && selectedRow == None
      ensures dropdown == Hidden && !mkdirVisible && !renameVisible && !uploadVisible
      ensures !confirmLoading && requests == [] && toasts == []
    {
      this.sessionId := sessionId;
      currentDirectory := Root;
      currentDirectoryInput := Root;
      files := [];
      loading := false;
      selectedRowKeys := [];
      selectedRow := None;
      dropdown := Hidden;
      mkdirVisible, renameVisible, uploadVisible := false, false, false;
      confirmLoading := false;
      requests := [];
      toasts := [];
    }

    /** Lists `key` ("" meaning the root). `loading` is raised for the
        request and released on every path, a thrown request included. */
    method LoadFiles(key: string, reply: Reply<seq<Item>>)
      requires Valid()
      modifies this`loading, this`currentDirectory, this`currentDirectoryInput, this`files,
               this`selectedRowKeys, this`selectedRow, this`requests, this`toasts
      ensures Valid() && !loading
      ensures Snapshot() == Listed(old(Snapshot()), key, reply)
      ensures requests == old(requests) + [List(ListedDirectory(key))]
      ensures toasts == old(toasts) + FailureToasts(reply)
      ensures old(ListingShape()) && (reply.Ok? ==> NoParentItem(reply.data)) ==> ListingShape()
    {
      ghost var before := Snapshot();
      ListedInvariants(before, key, reply);
      loading := true;
      var dir := ListedDirectory(key);
      requests := requests + [List(dir)];
      match reply {
        case Ok(data) =>
          files, currentDirectory, currentDirectoryInput := Listing(dir, data), dir, dir;
          selectedRow, selectedRowKeys := None, [];
        case Err(message) =>
          toasts := toasts + [Failure(message)];
        case Thrown =>
      }
      loading := false;
      assert Snapshot() == Listed(before, key, reply);
    }

    /** The refresh button, and mounting: list the current directory again. */
    method Refresh(reply: Reply<seq<Item>>)
      requires Valid()
      modifies this`loading, this`currentDirectory, this`currentDirectoryInput, this`files,
               this`selectedRowKeys, this`selectedRow, this`requests, this`toasts
      ensures Valid() && !loading
      ensures Snapshot() == Listed(old(Snapshot()), old(currentDirectory), reply)
      ensures requests == old(requests) + [List(old(currentDirectory))]
      ensures toasts == old(toasts) + FailureToasts(reply)
      ensures old(ListingShape()) && (reply.Ok? ==> NoParentItem(reply.data)) ==> ListingShape()
    {
      LoadFiles(currentDirectory, reply);
    }

    /** Typing in the directory box changes only the box. */
    method EditDirectoryInput(text: string)
      modifies this`currentDirectoryInput
      ensures currentDirectoryInput == text
    {
      currentDirectoryInput := text;
    }

    /** Pressing Enter in the directory box lists what it holds. */
    method SubmitDirectoryInput(reply: Reply<seq<Item>>)
      requires Valid()
      modifies this`loading, this`currentDirectory, this`currentDirectoryInput, this`files,
               this`selectedRowKeys, this`selectedRow, this`requests, this`toasts
      ensures Valid() && !loading
      ensures Snapshot() == Listed(old(Snapshot()), old(currentDirectoryInput), reply)
      ensures requests == old(requests) + [List(ListedDirectory(old(currentDirectoryInput)))]
      ensures toasts == old(toasts) + FailureToasts(reply)
      ensures old(ListingShape()) && (reply.Ok? ==> NoParentItem(reply.data)) ==> ListingShape()
    {
      LoadFiles(currentDirectoryInput, reply);
    }

    /** The checkbox column's change handler: the new keys without `..`. */
    method SelectionChange(keys: seq<string>)
      requires Valid()
      modifies this`selectedRowKeys
      ensures Valid()
      ensures selectedRowKeys == WithoutParent(keys)
    {
      selectedRowKeys := WithoutParent(keys);
    }

    /** A click on a row selects exactly that row; a click on `..` does
        nothing. */
    method Click(record: Entry)
      requires Valid() && record in files
      modifies this`selectedRowKeys, this`selectedRow
      ensures Valid()
      ensures IsParent(record) ==> selectedRowKeys == old(selectedRowKeys) && selectedRow == old(selectedRow)
      ensures !IsParent(record) ==> selectedRowKeys == [record.key] && selectedRow == Some(record)
    {
      if record.key == ParentKey {
        return;
      }
      selectedRow := Some(record);
      selectedRowKeys := [record.key];
    }

    /** A double-click on a directory or link lists it (the `..` row lists
        the parent of the current directory); on a plain file it does
        nothing at all. */
    method DoubleClick(record: Entry, reply: Reply<seq<Item>>)
      requires Valid() && record in files
      modifies this`loading, this`currentDirectory, this`currentDirectoryInput, this`files,
               this`selectedRowKeys, this`selectedRow, this`requests, this`toasts
      ensures Valid()
      ensures var target := DoubleClickTarget(old(currentDirectory), record);
              if target.Some? then
                && !loading
                && Snapshot() == Listed(old(Snapshot()), target.value, reply)
                && requests == old(requests) + [List(ListedDirectory(target.value))]
                && toasts == old(toasts) + FailureToasts(reply)
              else
                && loading == old(loading)
                && Snapshot() == old(Snapshot())
                && requests == old(requests) && toasts == old(toasts)
      ensures old(ListingShape()) && (reply.Ok? ==> NoParentItem(reply.data)) ==> ListingShape()
    {
      if record.isDir || record.isLink {
        if record.path == ParentKey {
          var parentDirectory := ParentPath(currentDirectory);
          LoadFiles(parentDirectory, reply);
        } else {
          LoadFiles(record.path, reply);
        }
      }
    }

    /** A right-click on a row other than `..` makes it the selected row and
        opens the menu at (x, y); it replaces the selected keys only when
        none were selected. A right-click on `..` does nothing. */
    method ContextMenu(record: Entry, x: int, y: int)
      requires Valid() && record in files
      modifies this`selectedRowKeys, this`selectedRow, this`dropdown
      ensures Valid()
      ensures IsParent(record) ==>
                && selectedRowKeys == old(selectedRowKeys) && selectedRow == old(selectedRow)
                && dropdown == old(dropdown)
      ensures !IsParent(record) ==>
                && selectedRowKeys == (if old(selectedRowKeys) == [] then [record.key] else old(selectedRowKeys))
                && selectedRow == Some(record)
                && dropdown == Shown(x, y)
    {
      if record.key == ParentKey {
        return;
      }
      var keys := selectedRowKeys;
      if |keys| == 0 {
        keys := [record.key];
      }
      selectedRow := Some(record);
      selectedRowKeys := keys;
      dropdown := Shown(x, y);
    }

    /** The next left click anywhere closes the menu. The listener fires for
        clicks on rows and on the menu's own buttons too; here that is this
        event, sent alongside `Click`, `ClickDownload` or `ClickRename`. */
    method ClickOutside()
      modifies this`dropdown
      ensures dropdown == Hidden
    {
      dropdown := Hidden;
    }

    /** The right-click menu: absent unless open; download needs exactly one
        selected key and a selected row that is neither directory nor link,
        rename exactly one selected key, delete is always available. */
    function Menu(): (m: Option<MenuItems>)
      reads this
      ensures m.Some? <==> dropdown.Shown?
      ensures m.Some? ==> m.value.delete && (m.value.download ==> m.value.rename)
      ensures m.Some? ==> (m.value.rename <==> |selectedRowKeys| == 1)
      ensures m.Some? ==>
                (m.value.download <==>
                   |selectedRowKeys| == 1 && !(selectedRow.Some? && (selectedRow.value.isDir || selectedRow.value.isLink)))
    {
      if dropdown.Shown? then
        Some(MenuItems(DownloadEnabled(selectedRowKeys, selectedRow), RenameEnabled(selectedRowKeys), true))
      else None
    }

    /** The menu's download button (inert while disabled): fetch the
        selected row's file. */
    method ClickDownload()
      modifies this`requests
      ensures requests == old(requests) +
                (if Menu().Some? && Menu().value.download then [Download(DownloadTarget(selectedRow))] else [])
    {
      if dropdown.Shown? && DownloadEnabled(selectedRowKeys, selectedRow) {
        requests := requests + [Download(DownloadTarget(selectedRow))];
      }
    }

    /** The menu's rename button (inert while disabled) opens the rename
        dialog. */
    method ClickRename()
      modifies this`renameVisible
      ensures renameVisible == (old(renameVisible) || (Menu().Some? && Menu().value.rename))
    {
      if dropdown.Shown? && RenameEnabled(selectedRowKeys) {
        renameVisible := true;
      }
    }

    /** The confirmed delete loop: one `rm` per key in order, skipping
        `..`, each failure reported, stopping only when a request throws. */
    method RemoveAll(keys: seq<string>, rm: string -> Reply<()>) returns (aborted: bool)
      modifies this`requests, this`toasts
      ensures var o := RunRemovals(keys, rm);
              requests == old(requests) + o.requests && toasts == old(toasts) + o.toasts
              && aborted == o.aborted
    {
      var sent, shown := [], [];
      var i := 0;
      aborted := false;
      while i < |keys| && !aborted
        invariant 0 <= i <= |keys|
        invariant RunRemovals(keys[..i], rm) == Outcome(sent, shown, aborted)
        invariant aborted ==> RunRemovals(keys, rm) == RunRemovals(keys[..i], rm)
        invariant requests == old(requests) && toasts == old(toasts)
      {
        var rowKey := keys[i];
        RunRemovalsStep(keys, i, rm);
        if rowKey != ParentKey {
          sent := sent + [Remove(rowKey)];
          var result := rm(rowKey);
          if result.Thrown? {
            ThrowStops(keys, i, rm);
            aborted := true;
          } else if result.Err? {
            shown := shown + [Failure(result.message)];
          }
        }
        i := i + 1;
      }
      assert !aborted ==> keys[..i] == keys;
      assert RunRemovals(keys, rm) == Outcome(sent, shown, aborted);
      requests := requests + sent;
      toasts := toasts + shown;
    }

    /** The delete button: warns when nothing is selected but carries on;
        once confirmed, sends one `rm` per selected key in order, skipping
        `..`, reports each failure without stopping, and then reloads the
        current directory exactly once. A request that throws ends the
        handler there, without the reload. */
    method Rmdir(confirmed: bool, rm: string -> Reply<()>, listing: Reply<seq<Item>>)
      requires Valid()
      modifies this`loading, this`currentDirectory, this`currentDirectoryInput, this`files,
               this`selectedRowKeys, this`selectedRow, this`requests, this`toasts
      ensures Valid()
      ensures var warned := if old(selectedRowKeys) == [] then [NeedSelection] else [];
              var o := RunRemovals(old(selectedRowKeys), rm);
              if !confirmed then
                && requests == old(requests) && toasts == old(toasts) + warned
                && Snapshot() == old(Snapshot()) && loading == old(loading)
              else if o.aborted then
                && requests == old(requests) + o.requests
                && toasts == old(toasts) + warned + o.toasts
                && Snapshot() == old(Snapshot()) && loading == old(loading)
              else
                && requests == old(requests) + o.requests + [List(old(currentDirectory))]
                && toasts == old(toasts) + warned + o.toasts + FailureToasts(listing)
                && Snapshot() == Listed(old(Snapshot()), old(currentDirectory), listing)
                && !loading
      ensures old(ListingShape()) && (listing.Ok? ==> NoParentItem(listing.data)) ==> ListingShape()
    {
      var keys := selectedRowKeys;
      if keys == [] {
        toasts := toasts + [NeedSelection];
      }
      if !confirmed {
        return;
      }
      var aborted := RemoveAll(keys, rm);
      if aborted {
        return;
      }
      LoadFiles(currentDirectory, listing);
    }

    method OpenMkdir()
      modifies this`mkdirVisible
      ensures mkdirVisible
    {
      mkdirVisible := true;
    }

    method CancelMkdir()
      modifies this`mkdirVisible
      ensures !mkdirVisible
    {
      mkdirVisible := false;
    }

    /** The mkdir dialog's OK: an empty name fails the form's required check
        and nothing happens. Otherwise it asks for `currentDirectory/name`;
        on success it reloads the whole current directory, on failure it
        shows the message; either way the dialog closes. A thrown request is
        swallowed and leaves the dialog open and spinning. */
    method MkdirOk(name: string, reply: Reply<()>, listing: Reply<seq<Item>>)
      requires Valid()
      modifies this`loading, this`currentDirectory, this`currentDirectoryInput, this`files,
               this`selectedRowKeys, this`selectedRow, this`requests, this`toasts,
               this`confirmLoading, this`mkdirVisible
      ensures Valid()
      ensures name == "" ==>
                && requests == old(requests) && toasts == old(toasts)
                && Snapshot() == old(Snapshot()) && loading == old(loading)
                && confirmLoading == old(confirmLoading) && mkdirVisible == old(mkdirVisible)
      ensures name != "" ==>
                var sent := old(requests) + [MakeDir(MkdirTarget(old(currentDirectory), name))];
                match reply
                case Ok(_) =>
                  && requests == sent + [List(old(currentDirectory))]
                  && toasts == old(toasts) + [Created] + FailureToasts(listing)
                  && Snapshot() == Listed(old(Snapshot()), old(currentDirectory), listing)
                  && !loading && !confirmLoading && !mkdirVisible
                case Err(message) =>
                  && requests == sent && toasts == old(toasts) + [Failure(message)]
                  && Snapshot() == old(Snapshot()) && loading == old(loading)
                  && !confirmLoading && !mkdirVisible
                case Thrown =>
                  && requests == sent && toasts == old(toasts)
                  && Snapshot() == old(Snapshot()) && loading == old(loading)
                  && confirmLoading && mkdirVisible == old(mkdirVisible)
      ensures old(ListingShape()) && (listing.Ok? ==> NoParentItem(listing.data)) ==> ListingShape()
    {
      if name == "" {
        return;
      }
      var dir := MkdirTarget(currentDirectory, name);
      confirmLoading := true;
      requests := requests + [MakeDir(dir)];
      match reply {
        case Ok(_) =>
          toasts := toasts + [Created];
          LoadFiles(currentDirectory, listing);
        case Err(message) =>
          toasts := toasts + [Failure(message)];
        case Thrown =>
          return;
      }
      confirmLoading := false;
      mkdirVisible := false;
    }

    method CancelRename()
      modifies this`renameVisible
      ensures !renameVisible
    {
      renameVisible := false;
    }

    /** The rename dialog's OK, for the first selected key (the dialog is
        only reachable with one key selected). An empty name fails the
        form's required check. A new path equal to the old one is reported
        renamed without a request. Otherwise the rename is requested and, on
        success, the renamed row is patched in place; the dialog closes on
        every path. */
    method RenameOk(newName: string, reply: Reply<()>)
      requires Valid() && selectedRowKeys != []
      modifies this`files, this`selectedRow, this`requests, this`toasts, this`confirmLoading,
               this`renameVisible
      ensures Valid()
      ensures newName == "" ==>
                && files == old(files) && selectedRow == old(selectedRow)
                && requests == old(requests) && toasts == old(toasts)
                && confirmLoading == old(confirmLoading) && renameVisible == old(renameVisible)
      ensures newName != "" ==>
                var oldName := old(selectedRowKeys)[0];
                var target := RenameTarget(old(currentDirectory), newName);
                && !confirmLoading && !renameVisible
                && (oldName == target ==>
                      files == old(files) && selectedRow == old(selectedRow)
                      && requests == old(requests) && toasts == old(toasts) + [Renamed])
                && (oldName != target ==>
                      && requests == old(requests) + [Rename(oldName, target)]
                      && toasts == old(toasts) + (if reply.Ok? then [Renamed] else FailureToasts(reply))
                      && files == (if reply.Ok? then RenamedFiles(old(files), oldName, target) else old(files))
                      && selectedRow == (if reply.Ok? then RenamedSelection(old(files), oldName, target, old(selectedRow))
                                         else old(selectedRow)))
      ensures old(ListingShape()) ==> ListingShape()
    {
      if newName == "" {
        return;
      }
      var oldName := selectedRowKeys[0];
      var target := RenameTarget(currentDirectory, newName);
      if oldName == target {
        toasts := toasts + [Renamed];
        confirmLoading := false;
        renameVisible := false;
        return;
      }
      assert oldName != ParentKey by { assert oldName in selectedRowKeys; }
      RenamedFilesKeepShape(currentDirectory, files, oldName, target);
      confirmLoading := true;
      SendRename(oldName, target, reply);
      confirmLoading := false;
      renameVisible := false;
    }

    /** The rename request and its outcome: on success the renamed row is
        patched in the table (and so is the selected row when it is that
        row), on failure the message is shown. */
    method SendRename(oldName: string, target: string, reply: Reply<()>)
      modifies this`files, this`selectedRow, this`requests, this`toasts
      ensures requests == old(requests) + [Rename(oldName, target)]
      ensures toasts == old(toasts) + (if reply.Ok? then [Renamed] else FailureToasts(reply))
      ensures files == if reply.Ok? then RenamedFiles(old(files), oldName, target) else old(files)
      ensures selectedRow == if reply.Ok? then RenamedSelection(old(files), oldName, target, old(selectedRow))
                             else old(selectedRow)
    {
      requests := requests + [Rename(oldName, target)];
      match reply {
        case Ok(_) =>
          toasts := toasts + [Renamed];
          selectedRow := RenamedSelection(files, oldName, target, selectedRow);
          files := PatchRenamed(files, oldName, target);
        case Err(message) =>
          toasts := toasts + [Failure(message)];
        case Thrown =>
      }
    }

    method OpenUpload()
      modifies this`uploadVisible
      ensures uploadVisible
    {
      uploadVisible := true;
    }

    method CancelUpload()
      modifies this`uploadVisible
      ensures !uploadVisible
    {
      uploadVisible := false;
    }

    /** The component's upload status handler: a toast when an upload is
        done or has failed, nothing while it is still uploading. The upload
        widget is never given this handler, so the running browser never
        calls it and shows none of these toasts; it is modelled as the
        handler the component defines. */
    method UploadChange(status: UploadStatus, name: string)
      modifies this`toasts
      ensures toasts == old(toasts) + match status
                                       case Done => [Uploaded(name)]
                                       case Error => [UploadFailed(name)]
                                       case _ => []
    {
      if status == Done {
        toasts := toasts + [Uploaded(name)];
      } else if status == Error {
        toasts := toasts + [UploadFailed(name)];
      }
    }

    /** The upload dialog's OK closes it and reloads the current directory. */
    method UploadOk(listing: Reply<seq<Item>>)
      requires Valid()
      modifies this`loading, this`currentDirectory, this`currentDirectoryInput, this`files,
               this`selectedRowKeys, this`selectedRow, this`requests, this`toasts,
               this`uploadVisible
      ensures Valid() && !loading && !uploadVisible
      ensures Snapshot() == Listed(old(Snapshot()), old(currentDirectory), listing)
      ensures requests == old(requests) + [List(old(currentDirectory))]
      ensures toasts == old(toasts) + FailureToasts(listing)
      ensures old(ListingShape()) && (listing.Ok? ==> NoParentItem(listing.data)) ==> ListingShape()
    {
      uploadVisible := false;
      LoadFiles(currentDirectory, listing);
    }
  }
}
