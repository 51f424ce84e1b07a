/** POSIX path handling as Python's `os.path` (posixpath) does it. */
module Paths {
  import opened Wrappers
  import opened Text

  /** Position of the last `c` in `s`, as `s.rfind(c)` finds it. */
  function LastIndex(s: string, c: char): (r: Option<nat>)
    ensures r.None? <==> c !in s
    ensures r.Some? ==> r.value < |s| && s[r.value] == c && c !in s[r.value + 1..]
  {
    if s == [] then None
    else if s[|s| - 1] == c then Some(|s| - 1)
    else
      var r := LastIndex(s[..|s| - 1], c);
      assert r.Some? ==> s[..|s| - 1][r.value + 1..] + [s[|s| - 1]] == s[r.value + 1..];
      r
  }

  /** `os.path.join(a, b)`: an absolute `b` replaces `a`, otherwise one `/` separates them. */
  function PathJoin(a: string, b: string): (r: string)
    ensures StartsWith(b, "/") ==> r == b
    ensures !StartsWith(b, "/") && (a == [] || a[|a| - 1] == '/') ==> r == a + b
    ensures !StartsWith(b, "/") && a != [] && a[|a| - 1] != '/' ==> r == a + "/" + b
  {
    if |b| > 0 && b[0] == '/' then b
    else if a == [] || a[|a| - 1] == '/' then a + b
    else a + "/" + b
  }

  /** `os.path.join(a, *parts)`. */
  function PathJoinAll(a: string, parts: seq<string>): string
    decreases |parts|
  {
    if parts == [] then a else PathJoinAll(PathJoin(a, parts[0]), parts[1..])
  }

  /** `os.path.basename(p)`: what follows the last `/`. */
  function Basename(p: string): (r: string)
    ensures '/' !in r
    ensures |r| <= |p| && r == p[|p| - |r|..]
    ensures |r| < |p| ==> p[|p| - |r| - 1] == '/'
  {
    match LastIndex(p, '/')
    case None => p
    case Some(i) => p[i + 1..]
  }

  /** The base name of a path joined under a directory is the joined name. */
  lemma BasenameOfJoin(dir: string, name: string)
    requires name != [] && '/' !in name
    ensures Basename(PathJoin(dir, name)) == name
  {
    if dir == [] {
      assert PathJoin(dir, name) == name;
    } else if dir[|dir| - 1] == '/' {
      assert PathJoin(dir, name) == dir[..|dir| - 1] + ['/'] + name;
      LastOccurrence(dir[..|dir| - 1], '/', name);
    } else {
      assert PathJoin(dir, name) == dir + ['/'] + name;
      LastOccurrence(dir, '/', name);
    }
  }

  /** The base name of a path ending in a text that contains a `/` is that text's base name. */
  lemma {:induction false} BasenameOfSuffix(head: string, tail: string)
    requires '/' in tail
    ensures Basename(head + tail) == Basename(tail)
  {
    LastIndexOfSuffix(head, tail);
    var i := LastIndex(tail, '/').value;
    assert (head + tail)[|head| + i + 1..] == tail[i + 1..];
  }

  /** The last `c` of a text ending in a part that contains `c` lies in that part. */
  lemma {:induction false} LastIndexOfSuffix(head: string, tail: string)
    requires '/' in tail
    ensures LastIndex(tail, '/').Some?
    ensures LastIndex(head + tail, '/') == Some(|head| + LastIndex(tail, '/').value)
    decreases |tail|
  {
    var s := head + tail;
    if tail[|tail| - 1] != '/' {
      var init := tail[..|tail| - 1];
      assert '/' in init by {
        var k :| 0 <= k < |tail| && tail[k] == '/';
        assert init[k] == '/';
      }
      assert s[..|s| - 1] == head + init;
      LastIndexOfSuffix(head, init);
    }
  }

  /** The last `c` is the one just before a suffix free of `c`. */
  lemma {:induction false} LastOccurrence(prefix: string, c: char, suffix: string)
    requires c !in suffix
    ensures LastIndex(prefix + [c] + suffix, c) == Some(|prefix|)
  {
    if suffix != [] {
      var s := prefix + [c] + suffix;
      assert s[..|s| - 1] == prefix + [c] + suffix[..|suffix| - 1];
      LastOccurrence(prefix, c, suffix[..|suffix| - 1]);
    }
  }

  /** No character of `s` in `[from, to)` is other than `.`. */
  predicate AllDots(s: string, from: int, to: int)
    requires 0 <= from <= to <= |s|
  {
    forall i :: from <= i < to ==> s[i] == '.'
  }

  /**
   * The root of `os.path.splitext(p)`: `p` without its extension, where the
   * extension starts at the last `.` of the last path component, unless only
   * dots precede that `.` in the component (a leading-dot name has none).
   */
  function SplitextRoot(p: string): (r: string)
    ensures |r| <= |p| && r == p[..|r|]
    ensures |r| < |p| ==> p[|r|] == '.' && '.' !in p[|r| + 1..] && '/' !in p[|r| + 1..]
  {
    var start := match LastIndex(p, '/') case None => 0 case Some(i) => i + 1;
    match LastIndex(p, '.')
    case None => p
    case Some(d) =>
      if d >= start && !AllDots(p, start, d) then p[..d] else p
  }

  /** A file name `stem.ext` whose stem starts with something other than a dot loses exactly `.ext`. */
  lemma SplitextRootOfExtension(stem: string, ext: string)
    requires stem != [] && stem[0] != '.'
    requires '.' !in stem && '/' !in stem && '.' !in ext && '/' !in ext
    ensures SplitextRoot(stem + "." + ext) == stem
  {
    var p := stem + "." + ext;
    assert p == stem + ['.'] + ext;
    LastOccurrence(stem, '.', ext);
    assert '/' !in p;
    assert p[0] == stem[0];
    assert p[..|stem|] == stem;
  }
}
