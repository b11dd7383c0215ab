/** Path arithmetic of the file browser: the directory a listing request
    names, the parent of the current directory, the file name of a path and
    the targets of rename and mkdir. Paths are plain strings; nothing here
    normalises repeated or trailing slashes. */
module Paths {

  const Root: string := "/"

  /** The index of the last `c` in `s`, or -1 when `s` has none
      (JavaScript's `lastIndexOf`). */
  function LastIndexOf(s: string, c: char): (r: int)
    ensures -1 <= r < |s|
    ensures r == -1 ==> c !in s
    ensures 0 <= r ==> s[r] == c && c !in s[r + 1..]
    decreases |s|
  {
    if s == [] then -1
    else if s[|s| - 1] == c then |s| - 1
    else
      var r := LastIndexOf(s[..|s| - 1], c);
      assert s == s[..|s| - 1] + [s[|s| - 1]];
      r
  }

  predicate EndsWithSlash(s: string) {
    |s| > 0 && s[|s| - 1] == '/'
  }

  /** The directory a listing of `key` asks for and, on success, becomes the
      current directory: an empty key means the root. */
  function ListedDirectory(key: string): (dir: string)
    ensures dir != ""
    ensures key != "" ==> dir == key
    ensures key == "" ==> dir == Root
  {
    if key == "" then Root else key
  }

  /** The prefix of `dir` before its last `/` (`substring(0, lastIndexOf('/'))`;
      a negative end counts as 0, so a path without `/` gives ""). */
  function ParentPath(dir: string): (p: string)
    ensures p <= dir
    ensures '/' in dir ==> |p| < |dir| && dir[|p|] == '/' && '/' !in dir[|p| + 1..]
    ensures '/' !in dir ==> p == ""
  {
    var i := LastIndexOf(dir, '/');
    if i < 0 then "" else dir[..i]
  }

  /** The last component of a path: what follows its last `/`. */
  function FileName(path: string): (name: string)
    ensures '/' !in name
    ensures |name| <= |path| && name == path[|path| - |name|..]
    ensures '/' !in path ==> name == path
    ensures '/' in path ==> |name| < |path| && path[|path| - |name| - 1] == '/'
  {
    path[LastIndexOf(path, '/') + 1..]
  }

  /** The new path of a rename: the current directory with a trailing `/`
      ensured, then the new name. */
  function RenameTarget(dir: string, name: string): (path: string)
    ensures '/' in path
    ensures |path| == |dir| + |name| + (if EndsWithSlash(dir) then 0 else 1)
  {
    (if EndsWithSlash(dir) then dir else dir + "/") + name
  }

  /** The path mkdir creates: the current directory, `/`, the new name
      (even when the current directory is the root, giving `//name`). */
  function MkdirTarget(dir: string, name: string): (path: string)
    ensures |path| == |dir| + 1 + |name|
    ensures path[|dir|] == '/'
  {
    dir + "/" + name
  }

  /** Splitting a path at its last `/` and joining the parts again gives the
      path back. */
  lemma {:induction false} SplitPath(path: string)
    requires '/' in path
    ensures path == ParentPath(path) + "/" + FileName(path)
  {
    var i := LastIndexOf(path, '/');
    assert path == path[..i] + [path[i]] + path[i + 1..];
  }

  /** The parent of `dir/name` is `dir` and its file name is `name`, for a
      name without `/`: going into a child and back up returns to `dir`. */
  lemma {:induction false} ParentOfChild(dir: string, name: string)
    requires '/' !in name
    ensures ParentPath(dir + "/" + name) == dir
    ensures FileName(dir + "/" + name) == name
  {
    var path := dir + "/" + name;
    var p := ParentPath(path);
    assert path[|dir|] == '/';
    assert |p| == |dir|;
    assert p == path[..|dir|] == dir;
    SplitPath(path);
    assert path == dir + "/" + FileName(path);
  }

  /** Going up from `/home/user` lists `/home`; going up from a top-level
      directory such as `/a` yields "", which is listed as the root. */
  lemma NavigateUpExamples()
    ensures ParentPath("/home/user") == "/home"
    ensures ParentPath("/a") == ""
    ensures ListedDirectory(ParentPath("/a")) == Root
  {
    ParentOfChild("/home", "user");
    assert "/home" + "/" + "user" == "/home/user";
    ParentOfChild("", "a");
    assert "" + "/" + "a" == "/a";
  }

  /** A directory typed with a trailing slash is its own parent: going up
      from `d/` lists `d`. */
  lemma {:induction false} ParentOfTrailingSlash(dir: string)
    ensures ParentPath(dir + "/") == dir
  {
    ParentOfChild(dir, "");
    assert dir + "/" + "" == dir + "/";
  }

  /** A rename target lies in the current directory and carries exactly the
      name the user typed; so it is never the `..` sentinel. */
  lemma {:induction false} RenameTargetParts(dir: string, name: string)
    requires '/' !in name
    ensures FileName(RenameTarget(dir, name)) == name
    ensures ParentPath(RenameTarget(dir, name))
            == if EndsWithSlash(dir) then dir[..|dir| - 1] else dir
  {
    if EndsWithSlash(dir) {
      var d := dir[..|dir| - 1];
      assert dir == d + "/";
      assert RenameTarget(dir, name) == d + "/" + name;
      ParentOfChild(d, name);
    } else {
      ParentOfChild(dir, name);
    }
  }

  /** mkdir and rename build the same path except in a directory that ends
      with `/`, where mkdir doubles the slash (at the root: `//name`). */
  lemma MkdirVersusRename(dir: string, name: string)
    ensures !EndsWithSlash(dir) ==> MkdirTarget(dir, name) == RenameTarget(dir, name)
    ensures EndsWithSlash(dir) ==> MkdirTarget(dir, name) == RenameTarget(dir, "/" + name)
    ensures MkdirTarget(Root, name) == "//" + name
  {
    assert Root + "/" + name == "//" + name;
    if EndsWithSlash(dir) {
      assert dir + ("/" + name) == dir + "/" + name;
    }
  }

  /** The mkdir target is a child of the current directory named as typed. */
  lemma {:induction false} MkdirTargetParts(dir: string, name: string)
    requires '/' !in name
    ensures ParentPath(MkdirTarget(dir, name)) == dir
    ensures FileName(MkdirTarget(dir, name)) == name
  {
    ParentOfChild(dir, name);
  }
}
