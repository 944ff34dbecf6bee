/** The local disk as the core sees it: a set of existing file paths,
    joined and split the way `os.path` does, plus the record of the I/O an
    operation performs (blob listings, blob downloads, index loads). */
module LocalFs {
  import opened Text

  /** The files that exist on local disk. */
  type Disk = set<string>

  /** One blob copied to one local file. */
  datatype Transfer = Transfer(blob: string, path: string)

  /** I/O performed against the object store or the disk, in order. */
  datatype Effect =
    | ListUnder(prefix: string)
    | Fetch(transfer: Transfer)
    | LoadIndex(dir: string)

  function FetchAll(ts: seq<Transfer>): (r: seq<Effect>)
    ensures |r| == |ts| && forall i :: 0 <= i < |ts| ==> r[i] == Fetch(ts[i])
    decreases |ts|
  {
    if ts == [] then [] else FetchAll(ts[..|ts| - 1]) + [Fetch(ts[|ts| - 1])]
  }

  function PathsOf(ts: seq<Transfer>): (r: seq<string>)
    ensures |r| == |ts| && forall i :: 0 <= i < |ts| ==> r[i] == ts[i].path
    decreases |ts|
  {
    if ts == [] then [] else PathsOf(ts[..|ts| - 1]) + [ts[|ts| - 1].path]
  }

  function PathSet(ts: seq<Transfer>): set<string> {
    set t | t in ts :: t.path
  }

  lemma TransfersSnoc(ts: seq<Transfer>, t: Transfer)
    ensures PathSet(ts + [t]) == PathSet(ts) + {t.path}
    ensures PathsOf(ts + [t]) == PathsOf(ts) + [t.path]
    ensures FetchAll(ts + [t]) == FetchAll(ts) + [Fetch(t)]
  {
    assert forall u :: u in ts + [t] <==> u in ts || u == t;
    assert (ts + [t])[..|ts|] == ts;
  }

  /** `os.path.join(dir, name)`: an absolute `name` replaces `dir`. */
  function JoinPath(dir: string, name: string): (r: string)
    ensures StartsWith(name, "/") ==> r == name
    ensures !StartsWith(name, "/") ==> EndsWith(r, name)
  {
    if StartsWith(name, "/") then name
    else if dir == [] || dir[|dir| - 1] == '/' then dir + name
    else dir + "/" + name
  }

  /** `os.path.basename(p)`: the part after the last '/'. */
  function Basename(p: string): (r: string)
    ensures '/' !in r
    ensures EndsWith(p, r)
    ensures |r| < |p| ==> p[|p| - |r| - 1] == '/'
    decreases |p|
  {
    if p == [] || p[|p| - 1] == '/' then []
    else
      var r := Basename(p[..|p| - 1]) + [p[|p| - 1]];
      assert p[..|p| - 1][|p| - 1 - (|r| - 1)..] + [p[|p| - 1]] == p[|p| - |r|..];
      r
  }

  /** The text every path inside `dir` starts with: `dir` itself when it
      already ends in '/', otherwise `dir` + "/". */
  function DirPrefix(dir: string): (d: string)
    ensures StartsWith(d, dir) && d != [] && d[|d| - 1] == '/'
    ensures dir != [] && dir[|dir| - 1] == '/' ==> d == dir
  {
    if dir != [] && dir[|dir| - 1] == '/' then dir else dir + "/"
  }

  /** Some file lies under `dir`: `os.path.exists(dir) and os.listdir(dir)`
      for a directory that holds the files of `disk`. */
  predicate DirHasEntries(disk: Disk, dir: string) {
    exists p :: p in disk && StartsWith(p, DirPrefix(dir))
  }

  /** `s.rfind(c)`: the last index of `c`, or -1. */
  function LastIndexOf(s: string, c: char): (i: int)
    ensures -1 <= i < |s|
    ensures i >= 0 ==> s[i] == c && forall j :: i < j < |s| ==> s[j] != c
    ensures i == -1 ==> c !in s
    decreases |s|
  {
    if s == [] then -1
    else if s[|s| - 1] == c then |s| - 1
    else LastIndexOf(s[..|s| - 1], c)
  }

  predicate AllDots(s: string) {
    forall j :: 0 <= j < |s| ==> s[j] == '.'
  }

  /** `os.path.splitext(name)[0]` for a name without '/': cut at the last
      '.', unless everything before it is dots (".bashrc", "..pdf"). */
  function SplitExtStem(name: string): (stem: string)
    ensures stem <= name
  {
    var dot := LastIndexOf(name, '.');
    if dot >= 0 && !AllDots(name[..dot]) then name[..dot] else name
  }

  /** A ".pdf" name whose stem is not just dots loses exactly its extension. */
  lemma StemOfPdf(name: string)
    requires EndsWith(name, ".pdf") && !AllDots(name[..|name| - 4])
    ensures SplitExtStem(name) + ".pdf" == name
    ensures |SplitExtStem(name)| == |name| - 4
  {
    var d := |name| - 4;
    assert name[d] == '.';
    assert forall j :: d < j < |name| ==> name[j] != '.' by {
      assert name[d..] == ".pdf";
      forall j | d < j < |name| ensures name[j] != '.' { assert name[j] == ".pdf"[j - d]; }
    }
    assert LastIndexOf(name, '.') == d;
    assert name[..d] + ".pdf" == name[..d] + name[d..];
  }
}
