/** Directory entries as the browser holds them: the server's items keyed by
    their path, the synthetic `..` entry, the listing built from a reply,
    the selection filter, the action-enable rules and the column sorters. */
module Entries {
  import opened Remote
  import opened Paths

  /** One item of a server listing. */
  datatype Item = Item(path: string, name: string, isDir: bool, isLink: bool,
                       size: int, modTime: string, mode: string)

  /** One row of the table: an item plus its row key. */
  datatype Entry = Entry(key: string, name: string, path: string, isDir: bool,
                         isLink: bool, size: int, modTime: string, mode: string)

  /** The key, name and path of the synthetic parent entry. */
  const ParentKey: string := ".."

  /** The synthetic parent entry: a directory called `..`. Its other fields
      are absent in the table and read here as false, 0 and "". */
  const ParentEntry: Entry := Entry(ParentKey, ParentKey, ParentKey, true, false, 0, "", "")

  predicate IsParent(e: Entry) {
    e.key == ParentKey
  }

  /** A server item as a row: its key is its path, and every other field is
      the item's own. */
  function Keyed(item: Item): (e: Entry)
    ensures e.key == e.path == item.path
    ensures e.name == item.name && e.isDir == item.isDir && e.isLink == item.isLink
    ensures e.size == item.size && e.modTime == item.modTime && e.mode == item.mode
  {
    Entry(item.path, item.name, item.path, item.isDir, item.isLink, item.size,
          item.modTime, item.mode)
  }

  /** The server never lists a path equal to the sentinel (its paths are
      absolute). */
  predicate NoParentItem(data: seq<Item>) {
    forall i | 0 <= i < |data| :: data[i].path != ParentKey
  }

  /** The rows of a successful listing of `dir`: the items in server order,
      preceded by the parent entry unless `dir` is the root. */
  function Listing(dir: string, data: seq<Item>): (files: seq<Entry>)
    ensures |files| == |data| + (if dir != Root then 1 else 0)
    ensures dir != Root ==> files[0] == ParentEntry
    ensures forall i | 0 <= i < |data| ::
              files[i + |files| - |data|] == Keyed(data[i])
  {
    (if dir != Root then [ParentEntry] else [])
    + seq(|data|, i requires 0 <= i < |data| => Keyed(data[i]))
  }

  /** The shape of the table for directory `dir`: exactly one `..` row, the
      first, when `dir` is not the root, and none at the root. */
  predicate ParentShape(dir: string, files: seq<Entry>) {
    && (dir != Root <==> |files| > 0 && IsParent(files[0]))
    && forall i | 0 < i < |files| :: !IsParent(files[i])
  }

  /** A listing has the `..` row iff it is not of the root, and only once. */
  lemma ListingParentShape(dir: string, data: seq<Item>)
    requires NoParentItem(data)
    ensures ParentShape(dir, Listing(dir, data))
  {
    var files := Listing(dir, data);
    var off := |files| - |data|;
    forall i | 0 <= i < |files| && (dir == Root || 0 < i)
      ensures !IsParent(files[i])
    {
      assert files[(i - off) + off] == Keyed(data[i - off]);
    }
  }

  /** The checkbox change handler: the table's new selection with `..`
      removed, the remaining keys in their order. */
  function WithoutParent(keys: seq<string>): (r: seq<string>)
    ensures |r| <= |keys|
    ensures forall k :: k in r <==> k in keys && k != ParentKey
    ensures ParentKey !in keys ==> r == keys
  {
    if keys == [] then []
    else
      var init := WithoutParent(keys[..|keys| - 1]);
      var last := keys[|keys| - 1];
      assert keys == keys[..|keys| - 1] + [last];
      if last == ParentKey then init else init + [last]
  }

  /** Filtering twice is filtering once. */
  lemma WithoutParentIdempotent(keys: seq<string>)
    ensures WithoutParent(WithoutParent(keys)) == WithoutParent(keys)
  {
  }

  /** The filter works key by key: the filtered concatenation is the
      concatenation of the filtered parts, so the kept keys stay in order. */
  lemma {:induction false} WithoutParentAppend(a: seq<string>, b: seq<string>)
    ensures WithoutParent(a + b) == WithoutParent(a) + WithoutParent(b)
    decreases |b|
  {
    if b == [] {
      assert a + b == a;
    } else {
      var b' := b[..|b| - 1];
      assert (a + b)[..|a + b| - 1] == a + b';
      WithoutParentAppend(a, b');
    }
  }

  // Action-enable rules of the right-click menu.

  /** A row that double-click opens: a directory or a link. The empty
      selected row (`{}`) has neither flag. */
  predicate Opens(row: Option<Entry>) {
    row.Some? && (row.value.isDir || row.value.isLink)
  }

  /** Rename is enabled iff exactly one key is selected. */
  predicate RenameEnabled(keys: seq<string>) {
    |keys| == 1
  }

  /** Download is enabled iff rename is, and the selected row is one that
      double-click would not open. */
  function DownloadEnabled(keys: seq<string>, row: Option<Entry>): (enabled: bool)
    ensures enabled <==> RenameEnabled(keys) && !Opens(row)
    ensures enabled ==> |keys| == 1
  {
    |keys| == 1 && !(row.Some? && row.value.isDir) && !(row.Some? && row.value.isLink)
  }

  /** The file a download fetches: the selected row's key, or the text
      `undefined` that the URL template yields for the empty row. */
  function DownloadTarget(row: Option<Entry>): (file: string)
    ensures row.Some? ==> file == row.value.key
  {
    if row.Some? then row.value.key else "undefined"
  }

  // Column sorters. Each returns 0 as soon as either row is `..`. The
  // table's sort itself is not modelled: such a comparator is not a
  // consistent order, so where the sort leaves the `..` row is up to it.

  /** The name sorter; `localeCompare` is the browser's locale ordering. */
  function CompareName(a: Entry, b: Entry, localeCompare: (string, string) -> int): (r: int)
    ensures IsParent(a) || IsParent(b) ==> r == 0
    ensures !IsParent(a) && !IsParent(b) ==> r == localeCompare(a.name, b.name)
  {
    if IsParent(a) then 0
    else if IsParent(b) then 0
    else localeCompare(a.name, b.name)
  }

  /** The size sorter: the difference of the sizes. */
  function CompareSize(a: Entry, b: Entry): (r: int)
    ensures IsParent(a) || IsParent(b) ==> r == 0
    ensures !IsParent(a) && !IsParent(b) ==>
              (r < 0 <==> a.size < b.size) && (r == 0 <==> a.size == b.size)
  {
    if IsParent(a) then 0
    else if IsParent(b) then 0
    else a.size - b.size
  }

  /** The modification-time sorter: locale order of the formatted times. */
  function CompareModTime(a: Entry, b: Entry, localeCompare: (string, string) -> int): (r: int)
    ensures IsParent(a) || IsParent(b) ==> r == 0
    ensures !IsParent(a) && !IsParent(b) ==> r == localeCompare(a.modTime, b.modTime)
  {
    if IsParent(a) then 0
    else if IsParent(b) then 0
    else localeCompare(a.modTime, b.modTime)
  }

  ghost predicate Antisymmetric(cmp: (string, string) -> int) {
    forall x, y :: cmp(x, y) == -cmp(y, x)
  }

  /** The sorters are antisymmetric whenever the underlying ordering is. */
  lemma SortersAntisymmetric(a: Entry, b: Entry, localeCompare: (string, string) -> int)
    requires Antisymmetric(localeCompare)
    ensures CompareName(a, b, localeCompare) == -CompareName(b, a, localeCompare)
    ensures CompareSize(a, b) == -CompareSize(b, a)
    ensures CompareModTime(a, b, localeCompare) == -CompareModTime(b, a, localeCompare)
  {
  }
}
