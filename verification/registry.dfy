/** Where a processed document lives: the root directory `<id>_<stem>` under
    the base directory `images` (main.py:22-28, helpers.py:20-26). The id is
    `uuid4().hex` in the service; here it is a parameter. */
module Registry {

  /** The base directory holding every document root. */
  const BaseDir: string := "images"

  /** Joining two path components by the POSIX rules of `os.path.join`. */
  function Join(a: string, b: string): (r: string)
    ensures |b| > 0 && b[0] == '/' ==> r == b
    ensures !(|b| > 0 && b[0] == '/') ==> |r| >= |a| + |b| && r[..|a|] == a && r[|r| - |b|..] == b
  {
    if |b| > 0 && b[0] == '/' then b
    else if a == "" || a[|a| - 1] == '/' then a + b
    else a + "/" + b
  }

  /** Index of the last `c` in `s`, or -1. */
  function LastIndexOf(s: string, c: char): (r: int)
    ensures -1 <= r < |s|
    ensures r >= 0 ==> s[r] == c
    ensures forall j :: r < j < |s| ==> s[j] != c
    decreases |s|
  {
    if |s| == 0 then -1
    else if s[|s| - 1] == c then |s| - 1
    else LastIndexOf(s[..|s| - 1], c)
  }

  /** `p[k..]` is the extension `os.path.splitext` splits off: `p[k]` is a dot,
      no dot or separator follows it, and the file-name part before it holds
      a character other than a dot (so `.bashrc` has no extension). */
  ghost predicate ExtensionAt(p: string, k: int)
  {
    && 0 <= k < |p| && p[k] == '.'
    && (forall j :: k < j < |p| ==> p[j] != '.' && p[j] != '/')
    && (exists j :: 0 <= j < k && p[j] != '.' && p[j] != '/' &&
                    forall m :: j < m < k ==> p[m] != '/')
  }

  /** Splitting a path into root and extension by the POSIX rules of
      `os.path.splitext`. */
  function SplitExt(p: string): (r: (string, string))
    ensures r.0 + r.1 == p
    ensures r.1 != "" <==> exists k :: ExtensionAt(p, k)
    ensures r.1 != "" ==> ExtensionAt(p, |r.0|)
  {
    var sep := LastIndexOf(p, '/');
    var dot := LastIndexOf(p, '.');
    SplitExtCases(p, sep, dot);
    if dot > sep && exists j | sep < j < dot :: p[j] != '.' then (p[..dot], p[dot..]) else (p, "")
  }

  lemma SplitExtCases(p: string, sep: int, dot: int)
    requires sep == LastIndexOf(p, '/') && dot == LastIndexOf(p, '.')
    ensures (dot > sep && exists j :: sep < j < dot && p[j] != '.') <==> exists k :: ExtensionAt(p, k)
    ensures (dot > sep && exists j :: sep < j < dot && p[j] != '.') ==> ExtensionAt(p, dot)
  {
    if dot > sep && exists j :: sep < j < dot && p[j] != '.' {
      var j :| sep < j < dot && p[j] != '.';
      assert p[j] != '/';
      assert ExtensionAt(p, dot);
    }
    if exists k :: ExtensionAt(p, k) {
      var k :| ExtensionAt(p, k);
      assert dot == k;
      var j :| 0 <= j < k && p[j] != '.' && p[j] != '/' && forall m :: j < m < k ==> p[m] != '/';
      assert sep < j;
    }
  }

  /** The root directory name of an upload: the id, an underscore, then the
      file name with its extension removed. */
  function RootName(id: string, filename: string): (r: string)
    ensures |r| > |id| && r[..|id|] == id && r[|id|] == '_'
    ensures r[|id| + 1..] + SplitExt(filename).1 == filename
  {
    var name := id + "_" + SplitExt(filename).0;
    assert name[|id| + 1..] == SplitExt(filename).0;
    name
  }

  /** The directory `create_pdf_directory` creates and returns. */
  function RootPath(id: string, filename: string): (r: string)
    ensures !(|id| > 0 && id[0] == '/') ==> r == BaseDir + "/" + RootName(id, filename)
  {
    Join(BaseDir, RootName(id, filename))
  }

  /** Ids of one fixed length (32 hex digits for `uuid4().hex`) never give
      two uploads the same root, whatever their file names. */
  lemma RootNamesDistinct(id1: string, file1: string, id2: string, file2: string)
    requires |id1| == |id2| && id1 != id2
    ensures RootName(id1, file1) != RootName(id2, file2)
  {
    assert RootName(id1, file1)[..|id1|] == id1;
    assert RootName(id2, file2)[..|id2|] == id2;
  }
}
