/** File-name handling of `pathlib.PurePosixPath` (`.name`, `.stem`) and of
    `os.path.basename`, on POSIX paths. */
module Paths {
  import opened Wrappers
  import opened Text

  /** Index of the last occurrence of `c` in `s`, like `str.rfind` (which
      returns -1 where this returns None). */
  function LastIndexOf(s: string, c: char): (r: Option<nat>)
    ensures r.None? <==> c !in s
    ensures r.Some? ==> r.value < |s| && s[r.value] == c && c !in s[r.value + 1..]
  {
    if s == [] then None
    else if s[|s| - 1] == c then Some(|s| - 1)
    else
      var r := LastIndexOf(s[..|s| - 1], c);
      assert s == s[..|s| - 1] + [s[|s| - 1]];
      r
  }

  /** The last component that `PurePosixPath` keeps: empty components (from
      repeated or trailing slashes) and "." components are dropped. */
  function LastComponent(parts: seq<string>): (r: string)
    ensures r != "."
    ensures r == "" || r in parts
  {
    if parts == [] then ""
    else if parts[|parts| - 1] == "" || parts[|parts| - 1] == "." then LastComponent(parts[..|parts| - 1])
    else parts[|parts| - 1]
  }

  /** `PurePosixPath(p).name` */
  function PathName(p: string): (r: string)
    ensures '/' !in r
  {
    var parts := Split(p, '/');
    var r := LastComponent(parts);
    assert r == "" || '/' !in r;
    r
  }

  /** `PurePosixPath(p).stem`: the name without its final suffix, where a
      suffix starts at the last '.' provided that dot is neither the first
      nor the last character of the name. */
  function Stem(name: string): (r: string)
    ensures |r| <= |name| && r == name[..|r|]
    ensures '.' !in name ==> r == name
  {
    match LastIndexOf(name, '.')
    case Some(i) => if 0 < i < |name| - 1 then name[..i] else name
    case None => name
  }

  /** `os.path.basename(p)`: everything after the last '/'. */
  function Basename(p: string): (r: string)
    ensures '/' !in r && EndsWith(p, r)
    ensures '/' !in p ==> r == p
  {
    match LastIndexOf(p, '/')
    case Some(i) => p[i + 1..]
    case None => p
  }

  /** A plain file name in a directory is that path's name. */
  lemma {:induction false} PathNameOfFile(dir: string, file: string)
    requires '/' !in file && file != "" && file != "."
    ensures PathName(dir + "/" + file) == file
  {
    var p := dir + "/" + file;
    assert p == (dir + "/") + file;
    SplitConcat(dir, file, '/');
    SplitNoSep(file, '/');
  }

  /** The stem of `base + "." + ext` is `base` when `ext` holds no dot and
      neither part is empty. */
  lemma StemDropsExtension(base: string, ext: string)
    requires base != "" && ext != "" && '.' !in ext
    ensures Stem(base + "." + ext) == base
  {
    var n := base + "." + ext;
    assert n[|base|] == '.';
    assert n[|base| + 1..] == ext;
    assert forall k :: |base| < k < |n| ==> n[k] == ext[k - |base| - 1];
    var i := LastIndexOf(n, '.');
    assert n[|base|] in n[|base|..];
    assert forall k :: i.value < k < |n| ==> n[k] == n[i.value + 1..][k - i.value - 1];
    assert i.value == |base|;
    assert n[..|base|] == base;
  }
}
