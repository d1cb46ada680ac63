/** File-name rules of Python's `pathlib` and `os.path` used by the model (POSIX paths). */
module Paths {
  import opened Strings

  /** `s.rfind(c)`: the last index of `c`, or -1. */
  function RFind(s: string, c: char): (r: int)
    ensures -1 <= r < |s|
    ensures r >= 0 ==> s[r] == c && forall k :: r < k < |s| ==> s[k] != c
    ensures r == -1 ==> forall k :: 0 <= k < |s| ==> s[k] != c
    decreases |s|
  {
    if s == [] then -1
    else if s[|s| - 1] == c then |s| - 1
    else RFind(s[..|s| - 1], c)
  }

  /** `PurePath(name).suffix`: from the last dot on, unless that dot is first or last. */
  function Suffix(name: string): string {
    var i := RFind(name, '.');
    if 0 < i < |name| - 1 then name[i..] else ""
  }

  /** `PurePath(name).stem`: the name without its suffix. */
  function Stem(name: string): string {
    var i := RFind(name, '.');
    if 0 < i < |name| - 1 then name[..i] else name
  }

  /** `PurePath(name).with_suffix(s)`. */
  function WithSuffix(name: string, s: string): string {
    Stem(name) + s
  }

  /** Stem and suffix split a name without losing anything. */
  lemma StemSuffix(name: string)
    ensures Stem(name) + Suffix(name) == name
    ensures Suffix(name) == "" || (Suffix(name)[0] == '.' && '.' !in Suffix(name)[1..])
  {
  }

  /** Replacing the suffix of a named file gives that suffix back. */
  lemma WithSuffixSuffix(name: string, s: string)
    requires name != [] && |s| >= 2 && s[0] == '.' && '.' !in s[1..]
    ensures Suffix(WithSuffix(name, s)) == s
    ensures Stem(WithSuffix(name, s)) == Stem(name)
  {
    var t := WithSuffix(name, s);
    var st := Stem(name);
    assert st != [];
    assert t[|st|] == '.';
    assert forall k :: |st| < k < |t| ==> t[k] == s[k - |st|];
    assert t[|st| + 1..] == s[1..];
    RFindLast(t, '.', |st|);
    assert t[|st|..] == s;
  }

  lemma RFindLast(s: string, c: char, i: int)
    requires 0 <= i < |s| && s[i] == c
    requires forall k :: i < k < |s| ==> s[k] != c
    ensures RFind(s, c) == i
  {
  }

  /** Lower-casing never moves a dot, so it commutes with taking the suffix. */
  lemma SuffixLower(name: string)
    ensures Suffix(Lower(name)) == Lower(Suffix(name))
  {
    RFindLower(name, '.');
  }

  /** Lower-casing keeps every character that is not a letter where it was. */
  lemma {:induction false} RFindLower(s: string, c: char)
    requires !('A' <= c <= 'Z') && !('a' <= c <= 'z')
    ensures RFind(Lower(s), c) == RFind(s, c)
    decreases |s|
  {
    if s != [] {
      assert Lower(s)[..|s| - 1] == Lower(s[..|s| - 1]);
      RFindLower(s[..|s| - 1], c);
    }
  }

  /** `PurePosixPath(p).name`: the text after the last "/". */
  function FileName(p: string): (r: string)
    ensures |r| <= |p| && r == p[|p| - |r|..]
    ensures '/' !in r
    ensures r == p || p[|p| - |r| - 1] == '/'
  {
    p[RFind(p, '/') + 1..]
  }

  /** `PurePosixPath(p).with_suffix(s)`: the directory part is kept, the file name gets the new suffix. */
  function PathWithSuffix(p: string, s: string): string {
    p[..|p| - |FileName(p)|] + WithSuffix(FileName(p), s)
  }

  /** The new path names the file with the given suffix. */
  lemma PathWithSuffixName(p: string, s: string)
    requires FileName(p) != []
    requires |s| >= 2 && s[0] == '.' && '.' !in s[1..] && '/' !in s
    ensures FileName(PathWithSuffix(p, s)) == WithSuffix(FileName(p), s)
    ensures Suffix(FileName(PathWithSuffix(p, s))) == s
  {
    var dir := p[..|p| - |FileName(p)|];
    var w := WithSuffix(FileName(p), s);
    var q := dir + w;
    assert '/' !in Stem(FileName(p));
    assert '/' !in w;
    if dir == [] {
      assert q == w;
      assert RFind(q, '/') == -1;
    } else {
      assert dir[|dir| - 1] == '/';
      RFindLast(q, '/', |dir| - 1);
      assert q[|dir|..] == w;
    }
    WithSuffixSuffix(FileName(p), s);
  }

  /** Lower-casing a path lower-cases its file name. */
  lemma FileNameLower(p: string)
    ensures FileName(Lower(p)) == Lower(FileName(p))
  {
    RFindLower(p, '/');
  }

  /**
   * `os.path.splitext(name)[0]` (POSIX): drops the extension that starts at the last dot of the file
   * name after the last "/", unless the file name is only dots before it.
   */
  function SplitextRoot(name: string): (r: string)
    ensures |r| <= |name| && r == name[..|r|]
    ensures r == name || (name[|r|] == '.' && '.' !in name[|r| + 1..] && '/' !in name[|r| + 1..])
    ensures r != name ==> exists k :: RFind(name, '/') < k < |r| && name[k] != '.'
  {
    var i := RFind(name, '.');
    var j := RFind(name, '/');
    if i > j && exists k :: j < k < i && name[k] != '.' then name[..i] else name
  }

  /** A dot in a directory part is no extension: `splitext("a.b/c")` keeps the whole path. */
  lemma SplitextRootDirectoryDot()
    ensures SplitextRoot("a.b/c") == "a.b/c"
  {
    RFindLast("a.b/c", '.', 1);
    RFindLast("a.b/c", '/', 3);
  }

  /** The components `PurePosixPath` keeps: empty and "." components are dropped. */
  function PathParts(p: string): seq<string> {
    Keep(SplitOn(p, "/"))
  }

  function Keep(parts: seq<string>): (r: seq<string>)
    ensures forall i :: 0 <= i < |r| ==> r[i] != "" && r[i] != "."
  {
    if parts == [] then []
    else if parts[0] == "" || parts[0] == "." then Keep(parts[1..])
    else [parts[0]] + Keep(parts[1..])
  }

  /** `Path(a) == Path(b)` for POSIX paths: same anchor and same kept components. */
  predicate SamePath(a: string, b: string) {
    StartsWith(a, "/") == StartsWith(b, "/") && PathParts(a) == PathParts(b)
  }

  /** A leading "./" does not change which relative path is meant. */
  lemma SamePathDotPrefix(p: string)
    requires !StartsWith(p, "/")
    ensures SamePath("./" + p, p)
  {
    assert "./" + p == "." + ['/'] + p;
    SplitAfterPiece(".", p, '/');
  }
}
