/** The local patch applied to the table after a successful rename. The
    source's loop tests `files['key']` (a property of the array, which has
    none) instead of `files[i]['key']`, so it never patches anything; both
    the loop as written and the intended loop are given here, and the
    browser uses the intended one. */
module Renaming {
  import opened Remote
  import opened Paths
  import opened Entries

  /** The row after its rename: new key and path, name = last component. */
  function Patched(e: Entry, newName: string): (p: Entry)
    ensures p.key == p.path == newName && p.name == FileName(newName)
    ensures p.isDir == e.isDir && p.isLink == e.isLink && p.size == e.size
    ensures p.modTime == e.modTime && p.mode == e.mode
  {
    e.(key := newName, path := newName, name := FileName(newName))
  }

  /** The table with row `i` patched (unchanged when there is no row `i`). */
  function PatchedAt(files: seq<Entry>, i: int, newName: string): (r: seq<Entry>)
    ensures |r| == |files|
    ensures forall j | 0 <= j < |files| && j != i :: r[j] == files[j]
    ensures 0 <= i < |files| ==> r[i] == Patched(files[i], newName)
  {
    if 0 <= i < |files| then files[i := Patched(files[i], newName)] else files
  }

  /** The index of the first row keyed `key`, or -1. */
  function FirstIndexOfKey(files: seq<Entry>, key: string): (i: int)
    ensures -1 <= i < |files|
    ensures i == -1 ==> forall j | 0 <= j < |files| :: files[j].key != key
    ensures 0 <= i ==> files[i].key == key && forall j | 0 <= j < i :: files[j].key != key
    decreases |files|
  {
    if files == [] then -1
    else if files[0].key == key then 0
    else
      var r := FirstIndexOfKey(files[1..], key);
      if r < 0 then -1 else r + 1
  }

  /** Row `j` is the first row keyed `key`. */
  predicate FirstKeyed(files: seq<Entry>, j: int, key: string) {
    0 <= j < |files| && files[j].key == key && forall k | 0 <= k < j :: files[k].key != key
  }

  /** `e` is the first row keyed `key`, the one the intended patch renames. */
  predicate IsFirstKeyedRow(files: seq<Entry>, key: string, e: Entry) {
    exists j | 0 <= j < |files| :: files[j] == e && FirstKeyed(files, j, key)
  }

  predicate UniqueKeys(files: seq<Entry>) {
    forall i, j | 0 <= i < j < |files| :: files[i].key != files[j].key
  }

  /** The table after a successful rename, as intended: the row keyed
      `oldName` is patched and every other row is left alone. */
  function RenamedFiles(files: seq<Entry>, oldName: string, newName: string): (r: seq<Entry>)
    ensures |r| == |files|
    ensures forall j | 0 <= j < |files| && files[j].key != oldName :: r[j] == files[j]
    ensures UniqueKeys(files) ==>
              forall j | 0 <= j < |files| && files[j].key == oldName :: r[j] == Patched(files[j], newName)
    ensures (forall j | 0 <= j < |files| :: files[j].key != oldName) ==> r == files
  {
    var i := FirstIndexOfKey(files, oldName);
    PatchedAt(files, i, newName)
  }

  /** Only the first row keyed `oldName` is renamed, as the loop's `break`
      leaves any later row with the same key alone. */
  lemma RenamedFirstOnly(files: seq<Entry>, oldName: string, newName: string, j: int)
    requires 0 <= j < |files|
    ensures FirstKeyed(files, j, oldName) ==> RenamedFiles(files, oldName, newName)[j] == Patched(files[j], newName)
    ensures !FirstKeyed(files, j, oldName) ==> RenamedFiles(files, oldName, newName)[j] == files[j]
  {
  }

  /** The selected row after the intended patch. In the source the selected
      row is the table's row object itself, so the in-place patch renames it
      exactly when it is the row the patch renames; any other selected row is
      left alone. A selected row taken from the table stays in the table. */
  function RenamedSelection(files: seq<Entry>, oldName: string, newName: string,
                            row: Option<Entry>): (r: Option<Entry>)
    ensures r.Some? <==> row.Some?
    ensures row.Some? && row.value.key != oldName ==> r == row
    ensures row.Some? && row.value in files ==> r.value in RenamedFiles(files, oldName, newName)
    ensures UniqueKeys(files) && row.Some? && row.value in files && row.value.key == oldName ==>
              r == Some(Patched(row.value, newName))
    ensures r == if row.Some? && IsFirstKeyedRow(files, oldName, row.value)
                 then Some(Patched(row.value, newName)) else row
  {
    var i := FirstIndexOfKey(files, oldName);
    if row.Some? && 0 <= i && row.value == files[i] then Some(Patched(row.value, newName))
    else row
  }

  /** The intended patch loop: find the row keyed `oldName`, patch it, stop. */
  method PatchRenamed(files: seq<Entry>, oldName: string, newName: string)
    returns (patched: seq<Entry>)
    ensures patched == RenamedFiles(files, oldName, newName)
  {
    patched := files;
    var i := 0;
    while i < |patched|
      invariant 0 <= i <= |files| && patched == files
      invariant forall j | 0 <= j < i :: files[j].key != oldName
    {
      if patched[i].key == oldName {
        patched := PatchedAt(patched, i, newName);
        break;
      }
      i := i + 1;
    }
  }

  /** `files['key']`: the array has no own property `key`, so the lookup is
      `undefined` whatever the rows are. */
  function ArrayKeyProperty(files: seq<Entry>): (v: Option<string>)
  {
    None
  }

  /** The patch loop as the source writes it: its test reads the array's
      `key` property, never matches, and the table comes back unchanged. */
  method PatchRenamedAsWritten(files: seq<Entry>, oldName: string, newName: string)
    returns (patched: seq<Entry>)
    ensures patched == files
  {
    patched := files;
    var i := 0;
    while i < |patched|
      invariant 0 <= i <= |files| && patched == files
    {
      if ArrayKeyProperty(patched) == Some(oldName) {
        patched := PatchedAt(patched, i, newName);
        break;
      }
      i := i + 1;
    }
  }

  /** The discrepancy: whenever the renamed row is in the table (and the
      name really changes, as the handler guarantees before sending), the
      intended patch changes the table, which the loop as written does not. */
  lemma PatchAsWrittenMissesRow(files: seq<Entry>, oldName: string, newName: string, j: nat)
    requires j < |files| && files[j].key == oldName && oldName != newName
    ensures RenamedFiles(files, oldName, newName) != files
  {
    var i := FirstIndexOfKey(files, oldName);
    assert RenamedFiles(files, oldName, newName)[i].key == newName;
  }

  /** The intended patch keeps the table's `..` shape: it never renames the
      parent row and never gives a row the sentinel key. */
  lemma RenamedFilesKeepShape(dir: string, files: seq<Entry>, oldName: string, newName: string)
    requires oldName != ParentKey && newName != ParentKey
    ensures ParentShape(dir, files) ==> ParentShape(dir, RenamedFiles(files, oldName, newName))
  {
    var r := RenamedFiles(files, oldName, newName);
    var i := FirstIndexOfKey(files, oldName);
    if 0 <= i {
      assert r[i].key == newName;
      forall j | 0 <= j < |r| ensures IsParent(r[j]) <==> IsParent(files[j]) {
        if j != i { assert r[j] == files[j]; }
      }
    }
  }
}
