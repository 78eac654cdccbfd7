/** Log rotation (rotater.c): renames and unlinks in a directory, which is a map from
    path to content.  Archive number i lives at prefix ++ i, zero padded ++ suffix. */
module Rotaters {
  import opened Common
  import opened Digits
  import opened ArrayLists

  /** The single-use members of a rotater once its archive path is parsed. */
  datatype Config = Config(basePath: string, prefix: string, width: nat, suffix: string, maxCount: int)

  /** zlog_file_t */
  datatype File = File(path: string, index: nat)

  function Path(c: Config, i: nat): string {
    c.prefix + Padded(i, Dec, c.width) + c.suffix
  }

  /** What is asked of a configuration: an archive is not the log itself nor a directory, and its
      number ends where the suffix begins. */
  ghost predicate ConfigOk(c: Config) {
    && (forall i: nat :: Path(c, i) != c.basePath)
    && (c.suffix != "" ==> !IsDigit(c.suffix[0]) && c.suffix[|c.suffix| - 1] != '/')
  }

  lemma PathInjective(c: Config, i: nat, j: nat)
    requires Path(c, i) == Path(c, j)
    ensures i == j
  {
    hide Padded;
    var n, m := Padded(i, Dec, c.width), Padded(j, Dec, c.width);
    assert n == Path(c, i)[|c.prefix|..|Path(c, i)| - |c.suffix|];
    assert m == Path(c, j)[|c.prefix|..|Path(c, j)| - |c.suffix|];
    PaddedInjective(i, j, Dec, c.width);
  }

  // ---------------------------------------------------------------- the directory

  class Dir {
    var files: map<string, string>
    /** The paths whose content a rename has replaced, one after the other. */
    ghost var overwritten: seq<string>

    constructor ()
      ensures files == map[] && overwritten == []
    {
      files, overwritten := map[], [];
    }

    method Rename(src: string, dst: string) returns (rc: int)
      modifies this
      ensures rc == if src in old(files) then 0 else -1
      ensures files == if rc == 0 then (old(files) - {src})[dst := old(files)[src]] else old(files)
      ensures overwritten == old(overwritten) + if rc == 0 && dst in old(files) && dst != src then [dst] else []
    {
      if src !in files {
        return -1;
      }
      overwritten := overwritten + if dst in files && dst != src then [dst] else [];
      files := (files - {src})[dst := files[src]];
      return 0;
    }

    method Unlink(path: string) returns (rc: int)
      modifies this
      ensures rc == if path in old(files) then 0 else -1
      ensures files == old(files) - {path} && overwritten == old(overwritten)
    {
      if path !in files {
        assert files - {path} == files;
        return -1;
      }
      files := files - {path};
      return 0;
    }

    /** The log is created and written again. */
    method Write(path: string, content: string)
      modifies this
      ensures files == old(files)[path := content] && overwritten == old(overwritten)
    {
      files := files[path := content];
    }
  }

  /** prefix*suffix */
  predicate GlobMatch(c: Config, p: string) {
    |p| >= |c.prefix| + |c.suffix| && p[..|c.prefix|] == c.prefix && p[|p| - |c.suffix|..] == c.suffix
  }

  /** A path matches when something stands between the prefix and the suffix. */
  lemma GlobMeaning(c: Config, p: string)
    ensures GlobMatch(c, p) <==> exists mid: string :: p == c.prefix + mid + c.suffix
  {
    if GlobMatch(c, p) {
      var mid := p[|c.prefix|..|p| - |c.suffix|];
      assert p == p[..|c.prefix|] + mid + p[|p| - |c.suffix|..];
    }
    if mid: string :| p == c.prefix + mid + c.suffix {
      assert p[|p| - |c.suffix|..] == c.suffix;
    }
  }

  lemma PathMatches(c: Config, i: nat)
    ensures GlobMatch(c, Path(c, i))
  {
    hide Padded;
    var n := Padded(i, Dec, c.width);
    assert Path(c, i)[|Path(c, i)| - |c.suffix|..] == c.suffix;
  }

  /** Any order the listing may come in. */
  method Glob(d: Dir, c: Config) returns (paths: seq<string>)
    ensures forall p :: p in paths <==> p in d.files && GlobMatch(c, p)
    ensures forall i, j :: 0 <= i < j < |paths| ==> paths[i] != paths[j]
  {
    hide GlobMatch;
    var all := set p | p in d.files && GlobMatch(c, p);
    var left := all;
    paths := [];
    while left != {}
      invariant left <= all
      invariant forall p | p in all :: p in paths || p in left
      invariant forall i :: 0 <= i < |paths| ==> paths[i] in all && paths[i] !in left
      invariant forall i, j :: 0 <= i < j < |paths| ==> paths[i] != paths[j]
      decreases |left|
    {
      var p :| p in left;
      paths := paths + [p];
      left := left - {p};
    }
  }

  // ---------------------------------------------------------------- which files are archives

  /** zlog_file_check_new: the log itself, directories, overlong paths and numbers that are too
      short are passed over; a path without a number counts as number 0. */
  function CheckNew(c: Config, path: string): Option<File> {
    if path == c.basePath then None
    else if path != "" && path[|path| - 1] == '/' then None
    else if |path| > MAXLEN_PATH then None
    else
      var rest := if |c.prefix| <= |path| then path[|c.prefix|..] else "";
      var nread := DigitRun(rest);
      if c.width != 0 && nread < c.width then None
      else Some(File(path, Value(rest[..nread], Dec)))
  }

  /** zlog_file_cmp */
  function FileCmp(a: File, b: File): int {
    if a.index - b.index > 0 then 1 else if a.index - b.index < 0 then -1 else 0
  }

  lemma RunBeforeSuffix(n: string, suffix: string)
    requires forall i :: 0 <= i < |n| ==> IsDigit(n[i])
    requires suffix != "" ==> !IsDigit(suffix[0])
    ensures DigitRun(n + suffix) == |n|
  {
    if suffix == "" {
      assert n + suffix == n;
      DigitRunAll(n);
    } else {
      DigitRunOf(n, suffix);
    }
  }

  lemma CheckParts(c: Config, n: string)
    requires n != "" && |n| >= c.width && forall i :: 0 <= i < |n| ==> IsDigit(n[i])
    requires c.suffix != "" ==> !IsDigit(c.suffix[0]) && c.suffix[|c.suffix| - 1] != '/'
    requires c.prefix + n + c.suffix != c.basePath && |c.prefix + n + c.suffix| <= MAXLEN_PATH
    ensures CheckNew(c, c.prefix + n + c.suffix) == Some(File(c.prefix + n + c.suffix, Value(n, Dec)))
  {
    hide Value;
    hide DigitRun;
    var p := c.prefix + n + c.suffix;
    RunBeforeSuffix(n, c.suffix);
    assert p[|c.prefix|..] == n + c.suffix;
    assert (n + c.suffix)[..|n|] == n;
    assert p[|p| - 1] == if c.suffix == "" then n[|n| - 1] else c.suffix[|c.suffix| - 1];
  }

  lemma CheckArchive(c: Config, i: nat)
    requires ConfigOk(c) && |Path(c, i)| <= MAXLEN_PATH
    ensures CheckNew(c, Path(c, i)) == Some(File(Path(c, i), i))
  {
    PaddedDenotes(i, Dec, c.width);
    TextShape(i, Dec);
    hide Padded;
    hide CheckNew;
    CheckParts(c, Padded(i, Dec, c.width));
  }

  /** The path of an archive: its number in at least `width` digits, with zeros in front only up to the width. */
  lemma PathShape(c: Config, i: nat) returns (ds: string)
    ensures Path(c, i) == c.prefix + ds + c.suffix && Value(ds, Dec) == i
    ensures (forall k :: 0 <= k < |ds| ==> IsDigit(ds[k])) && |ds| >= c.width && |ds| >= 1
    ensures |ds| > c.width && |ds| > 1 ==> ds[0] != '0'
  {
    ds := Padded(i, Dec, c.width);
    PaddedDenotes(i, Dec, c.width);
    TextShape(i, Dec);
    if i == 0 {
      assert Text(0, Dec) == "0";
    }
  }

  lemma {:induction false} DigitRunMeaning(s: string)
    ensures (forall i :: 0 <= i < DigitRun(s) ==> IsDigit(s[i])) && (DigitRun(s) < |s| ==> !IsDigit(s[DigitRun(s)]))
    decreases |s|
  {
    if s != "" && IsDigit(s[0]) {
      DigitRunMeaning(s[1..]);
      assert forall i :: 1 <= i < DigitRun(s) ==> s[i] == s[1..][i - 1];
    }
  }

  /** A file is taken for an archive exactly when it is neither the log nor a directory, its path is not too long, and
      as many digits as the width asks for follow the prefix; its number is that of all the digits there. */
  lemma CheckMeaning(c: Config, path: string, ds: string, rest: string)
    requires c.prefix <= path && path[|c.prefix|..] == ds + rest
    requires (forall i :: 0 <= i < |ds| ==> IsDigit(ds[i])) && (rest != "" ==> !IsDigit(rest[0]))
    ensures CheckNew(c, path) ==
            if path != c.basePath && (path == "" || path[|path| - 1] != '/') && |path| <= MAXLEN_PATH && |ds| >= c.width
            then Some(File(path, Value(ds, Dec))) else None
  {
    hide Value, DigitRun;
    RunBeforeSuffix(ds, rest);
    assert (ds + rest)[..|ds|] == ds;
  }

  /** What the listing takes `f` for: a path that matches the pattern, with the number that is read from it. */
  ghost predicate IsArchive(c: Config, f: File) {
    GlobMatch(c, f.path) && CheckNew(c, f.path) == Some(f)
  }

  /** Archive number i under its own name. */
  function Nth(c: Config, i: nat): File { File(Path(c, i), i) }

  lemma NthIsArchive(c: Config, i: nat)
    requires ConfigOk(c) && |Path(c, i)| <= MAXLEN_PATH
    ensures IsArchive(c, Nth(c, i))
  {
    CheckArchive(c, i);
    PathMatches(c, i);
  }

  lemma ArchivePath(c: Config, f: File, g: File)
    requires IsArchive(c, f) && IsArchive(c, g)
    ensures f.path == g.path ==> f == g
    ensures f.path != c.basePath
  {
  }

  /** `files` are the archives in the directory, whatever else is there, and file k holds cont[k]. */
  ghost predicate Held(m: map<string, string>, c: Config, files: seq<File>, cont: seq<string>) {
    && |files| == |cont| && Distinct(files)
    && (forall f :: f in files <==> f.path in m && IsArchive(c, f))
    && (forall k :: 0 <= k < |files| ==> files[k].path in m && m[files[k].path] == cont[k])
  }

  ghost predicate Sorted(files: seq<File>) {
    forall i, j :: 0 <= i < j < |files| ==> files[i].index <= files[j].index
  }

  ghost predicate Ascending(files: seq<File>) {
    forall i, j :: 0 <= i < j < |files| ==> files[i].index < files[j].index
  }

  lemma HeldAt(m: map<string, string>, c: Config, files: seq<File>, cont: seq<string>, k: nat)
    requires Held(m, c, files, cont) && k < |files|
    ensures |cont| == |files| && files[k].path in m && files[k].path != c.basePath && IsArchive(c, files[k])
    ensures m[files[k].path] == cont[k]
  {
    assert files[k] in files;
  }

  /** Two files of a listing have different paths. */
  lemma HeldApart(m: map<string, string>, c: Config, files: seq<File>, cont: seq<string>, j: nat, k: nat)
    requires Held(m, c, files, cont) && j < |files| && k < |files| && j != k
    ensures files[j].path != files[k].path
  {
    hide IsArchive;
    HeldAt(m, c, files, cont, j);
    HeldAt(m, c, files, cont, k);
    ArchivePath(c, files[j], files[k]);
  }

  lemma HeldShape(m: map<string, string>, c: Config, files: seq<File>, cont: seq<string>)
    requires Held(m, c, files, cont)
    ensures |files| == |cont| && Distinct(files)
  {
  }

  /** The number of a path is live exactly when it is listed. */
  lemma LiveExactly(m: map<string, string>, c: Config, files: seq<File>, cont: seq<string>, y: nat)
    requires ConfigOk(c) && Held(m, c, files, cont) && |Path(c, y)| <= MAXLEN_PATH
    ensures Path(c, y) in m <==> Nth(c, y) in files
  {
    hide IsArchive;
    hide Path;
    NthIsArchive(c, y);
  }

  // ---------------------------------------------------------------- what one system call does to them

  lemma HeldUnlinked(m: map<string, string>, c: Config, files: seq<File>, cont: seq<string>, k: nat)
    requires Held(m, c, files, cont) && k < |files|
    ensures Held(m - {files[k].path}, c, files[..k] + files[k + 1..], cont[..k] + cont[k + 1..])
  {
    hide IsArchive;
    RemovedMembers(files, k);
    var files', cont' := files[..k] + files[k + 1..], cont[..k] + cont[k + 1..];
    forall f | f in files && f != files[k]
      ensures f.path != files[k].path
    {
      ArchivePath(c, f, files[k]);
    }
    forall j | 0 <= j < |files'|
      ensures files'[j].path in m && files'[j].path != files[k].path && m[files'[j].path] == cont'[j]
    {
      var i := if j < k then j else j + 1;
      assert files'[j] == files[i] && cont'[j] == cont[i];
      HeldApart(m, c, files, cont, i, k);
    }
  }

  lemma RemovedMembers<T>(s: seq<T>, k: nat)
    requires Distinct(s) && k < |s|
    ensures Distinct(s[..k] + s[k + 1..]) && forall f :: f in s[..k] + s[k + 1..] <==> f in s && f != s[k]
  {
    var s' := s[..k] + s[k + 1..];
    assert forall j :: 0 <= j < |s'| ==> s'[j] == s[if j < k then j else j + 1];
    forall f | f in s && f != s[k]
      ensures f in s'
    {
      var j :| 0 <= j < |s| && s[j] == f;
      assert f == s'[if j < k then j else j - 1];
    }
  }

  /** An archive moves to a number that is free. */
  lemma HeldRenamed(m: map<string, string>, c: Config, files: seq<File>, cont: seq<string>, k: nat, y: nat)
    requires ConfigOk(c) && Held(m, c, files, cont) && k < |files| && |Path(c, y)| <= MAXLEN_PATH
    requires Nth(c, y) !in files
    ensures Path(c, y) !in m
    ensures Held((m - {files[k].path})[Path(c, y) := m[files[k].path]], c, files[k := Nth(c, y)], cont)
  {
    hide IsArchive;
    hide Path;
    LiveExactly(m, c, files, cont, y);
    NthIsArchive(c, y);
    HeldAt(m, c, files, cont, k);
    var m', files' := (m - {files[k].path})[Path(c, y) := m[files[k].path]], files[k := Nth(c, y)];
    assert forall j :: 0 <= j < |files| && j != k ==> files'[j] == files[j] && files[j].path != files[k].path by {
      forall j | 0 <= j < |files| && j != k
        ensures files[j].path != files[k].path
      {
        HeldApart(m, c, files, cont, j, k);
      }
    }
    RenamedMembers(files, k, Nth(c, y));
    forall f
      ensures f in files' <==> f.path in m' && IsArchive(c, f)
    {
      if IsArchive(c, f) {
        ArchivePath(c, f, files[k]);
        ArchivePath(c, f, Nth(c, y));
      }
    }
  }

  lemma RenamedMembers<T>(s: seq<T>, k: nat, x: T)
    requires Distinct(s) && k < |s| && x !in s
    ensures Distinct(s[k := x]) && forall f :: f in s[k := x] <==> f == x || (f in s && f != s[k])
  {
    var s' := s[k := x];
    assert s'[k] == x;
    forall f | f in s && f != s[k]
      ensures f in s'
    {
      var j :| 0 <= j < |s| && s[j] == f;
      assert s'[j] == f;
    }
  }

  lemma InsertedMembers<T>(s: seq<T>, k: nat, x: T)
    requires Distinct(s) && k <= |s| && x !in s
    ensures Distinct(s[..k] + [x] + s[k..]) && forall f :: f in s[..k] + [x] + s[k..] <==> f == x || f in s
  {
    var s' := s[..k] + [x] + s[k..];
    assert s'[k] == x && forall j :: 0 <= j < |s| ==> s[j] == s'[if j < k then j else j + 1];
  }

  /** The log becomes the archive at place `k`, under a free number. */
  lemma HeldArchived(m: map<string, string>, c: Config, files: seq<File>, cont: seq<string>, k: nat, y: nat)
    requires ConfigOk(c) && Held(m, c, files, cont) && c.basePath in m && |Path(c, y)| <= MAXLEN_PATH
    requires k <= |files| && Nth(c, y) !in files
    ensures Path(c, y) !in m
    ensures Held((m - {c.basePath})[Path(c, y) := m[c.basePath]], c,
                 files[..k] + [Nth(c, y)] + files[k..], cont[..k] + [m[c.basePath]] + cont[k..])
  {
    hide IsArchive;
    hide Path;
    LiveExactly(m, c, files, cont, y);
    NthIsArchive(c, y);
    InsertedMembers(files, k, Nth(c, y));
    var m', files' := (m - {c.basePath})[Path(c, y) := m[c.basePath]], files[..k] + [Nth(c, y)] + files[k..];
    forall f
      ensures f in files' <==> f.path in m' && IsArchive(c, f)
    {
      if IsArchive(c, f) {
        ArchivePath(c, f, Nth(c, y));
      }
    }
    forall j | 0 <= j < |files|
      ensures files[j].path in m' && m'[files[j].path] == cont[j]
    {
      HeldAt(m, c, files, cont, j);
    }
  }

  /** Writing the log does not touch the archives. */
  lemma HeldWritten(m: map<string, string>, c: Config, files: seq<File>, cont: seq<string>, content: string)
    ensures Held(m[c.basePath := content], c, files, cont) <==> Held(m, c, files, cont)
  {
    hide IsArchive;
    forall f | IsArchive(c, f)
      ensures f.path != c.basePath
    {
      ArchivePath(c, f, f);
    }
    forall j | 0 <= j < |files| && IsArchive(c, files[j])
      ensures files[j].path != c.basePath
    {
      ArchivePath(c, files[j], files[j]);
    }
    assert forall j :: 0 <= j < |files| ==> files[j] in files;
  }

  // ---------------------------------------------------------------- listing

  /** `s` lists the files. */
  ghost predicate Lists(s: seq<Cell<File>>, files: seq<File>) {
    |s| == |files| && forall k :: 0 <= k < |s| ==> s[k] == Item(files[k])
  }

  /** A sorted insertion of one more file keeps the list in order, wherever it goes. */
  lemma ListsInserted(s: seq<Cell<File>>, files: seq<File>, x: File) returns (files': seq<File>)
    requires Lists(s, files) && Sorted(files) && Distinct(files) && x !in files
    ensures Lists(Inserted(s, FileCmp, x), files') && Sorted(files') && Distinct(files')
    ensures forall f :: f in files' <==> f in files || f == x
  {
    var k := Slot(s, FileCmp, x);
    files' := files[..k] + [x] + files[k..];
    InsertedMembers(files, k, x);
    assert forall j :: 0 <= j < k ==> files[j] == s[j].value && files[j].index <= x.index;
    assert k < |s| ==> s[k].value == files[k] && files[k].index > x.index;
    SortedInserted(files, k, x);
    hide Sorted, Distinct;
  }

  lemma SortedInserted(files: seq<File>, k: nat, x: File)
    requires Sorted(files) && k <= |files| && (forall j :: 0 <= j < k ==> files[j].index <= x.index)
    requires k < |files| ==> files[k].index > x.index
    ensures Sorted(files[..k] + [x] + files[k..])
  {
    assert forall j :: k <= j < |files| ==> files[j].index > x.index;
  }

  ghost function ContentsOf(m: map<string, string>, files: seq<File>): (cont: seq<string>)
    requires forall k :: 0 <= k < |files| ==> files[k].path in m
    ensures |cont| == |files| && forall k :: 0 <= k < |files| ==> cont[k] == m[files[k].path]
  {
    if files == [] then [] else ContentsOf(m, files[..|files| - 1]) + [m[files[|files| - 1].path]]
  }

  /** Whatever is in the directory and in whatever order it is listed, the list holds exactly the archives, by their
      numbers. */
  method AddArchiveFiles(d: Dir, c: Config)
    returns (list: ArrayList<File>, ghost files: seq<File>, ghost cont: seq<string>)
    ensures fresh(list) && fresh(list.cells) && list.Valid() && Lists(list.Contents(), files)
    ensures Held(d.files, c, files, cont) && Sorted(files)
  {
    hide GlobMatch, CheckNew;
    ghost var m := d.files;
    list := new ArrayList<File>();
    files := [];
    var paths := Glob(d, c);
    for i := 0 to |paths|
      invariant fresh(list) && fresh(list.cells) && list.Valid() && Lists(list.Contents(), files) && Sorted(files)
      invariant Distinct(files)
      invariant forall f :: f in files <==> IsArchive(c, f) && f.path in paths[..i]
    {
      assert paths[i] in paths && GlobMatch(c, paths[i]) && paths[..i + 1] == paths[..i] + [paths[i]];
      files := AddOne(list, c, paths[i], files, paths[..i]);
    }
    assert paths[..|paths|] == paths;
    forall k | 0 <= k < |files|
      ensures files[k].path in m
    {
      assert files[k] in files;
    }
    cont := ContentsOf(m, files);
  }

  method AddOne(list: ArrayList<File>, c: Config, p: string, ghost files: seq<File>, ghost seen: seq<string>)
    returns (ghost files': seq<File>)
    requires p !in seen && GlobMatch(c, p)
    requires list.Valid() && Lists(list.Contents(), files) && Sorted(files) && Distinct(files)
    requires forall f :: f in files <==> IsArchive(c, f) && f.path in seen
    modifies list, list.cells
    ensures list.Valid() && (list.cells == old(list.cells) || fresh(list.cells))
    ensures Lists(list.Contents(), files') && Sorted(files') && Distinct(files')
    ensures forall f :: f in files' <==> IsArchive(c, f) && f.path in seen + [p]
  {
    hide GlobMatch;
    files' := files;
    var file := CheckNew(c, p);
    CheckKeepsPath(c, p);
    hide CheckNew;
    if file.Some? {
      files' := ListsInserted(list.Contents(), files, file.value);
      list.SortAdd(FileCmp, file.value);
    }
  }

  lemma CheckKeepsPath(c: Config, p: string)
    ensures CheckNew(c, p).Some? ==> CheckNew(c, p).value.path == p
  {
  }

  lemma HeadIn<T>(s: seq<T>)
    requires s != []
    ensures s[0] in s
  {
  }

  /** A listing by different numbers is the only one in order. */
  lemma {:induction false} AscendingUnique(a: seq<File>, b: seq<File>)
    requires Ascending(a) && Sorted(b) && Distinct(b) && forall x :: x in a <==> x in b
    ensures a == b
  {
    if a != [] {
      assert a[|a| - 1] in b;
      var x, y := a[|a| - 1], b[|b| - 1];
      assert y in a && x in b;
      assert x == y;
      var a', b' := a[..|a| - 1], b[..|b| - 1];
      forall z
        ensures z in a' <==> z in b'
      {
        assert z in a' <==> z in a && z != x;
        assert z in b' <==> z in b && z != y;
      }
      AscendingUnique(a', b');
      assert a == a' + [x] && b == b' + [y];
    } else if b != [] {
      HeadIn(b);
    }
  }

  lemma LastRemoved<T>(a: seq<T>)
    requires Distinct(a) && a != []
    ensures Distinct(a[..|a| - 1]) && forall y :: y in a[..|a| - 1] <==> y in a && y != a[|a| - 1]
  {
  }

  /** Two listings of the same files are equally long. */
  lemma {:induction false} SameLength<T>(a: seq<T>, b: seq<T>)
    requires Distinct(a) && Distinct(b) && forall x :: x in a <==> x in b
    ensures |a| == |b|
  {
    if a == [] {
      if b != [] { HeadIn(b); }
    } else {
      var x := a[|a| - 1];
      assert x in a && x in b;
      var k :| 0 <= k < |b| && b[k] == x;
      var a', b' := a[..|a| - 1], b[..k] + b[k + 1..];
      RemovedMembers(b, k);
      LastRemoved(a);
      forall y
        ensures y in a' <==> y in b'
      {
        assert y in a' <==> y in a && y != x;
        assert y in b' <==> y in b && y != x;
      }
      SameLength(a', b');
    }
  }

  lemma HeldUnique(m: map<string, string>, c: Config, a: seq<File>, cont: seq<string>, b: seq<File>, cont': seq<string>)
    requires Held(m, c, a, cont) && Held(m, c, b, cont') && Ascending(a) && Sorted(b)
    ensures a == b && cont == cont'
  {
    hide IsArchive;
    AscendingUnique(a, b);
  }

  // ---------------------------------------------------------------- rolling

  /** The archives 0 to n - 1 under their own names. */
  ghost function Numbers(c: Config, n: nat): (files: seq<File>)
    ensures |files| == n && forall k :: 0 <= k < n ==> files[k] == Nth(c, k)
  {
    if n == 0 then [] else Numbers(c, n - 1) + [Nth(c, n - 1)]
  }

  /** Archive k of `files` for k < i, then the numbers from i + 1 on. */
  ghost function MovedTo(c: Config, files: seq<File>, i: nat, n: nat): (moved: seq<File>)
    requires i <= |files|
    ensures |moved| == n && forall k :: 0 <= k < n ==> moved[k] == if k < i then files[k] else Nth(c, k + 1)
  {
    if n == 0 then [] else MovedTo(c, files, i, n - 1) + [if n - 1 < i then files[n - 1] else Nth(c, n)]
  }

  /** The archives a rolling rotation keeps. */
  ghost function Keep(s: seq<string>, maxCount: int): seq<string> {
    if maxCount > 0 && |s| > maxCount then s[..maxCount] else s
  }

  /** As many as may be kept, from the front. */
  lemma KeepMeaning(s: seq<string>, maxCount: int)
    ensures Keep(s, maxCount) <= s && (maxCount <= 0 ==> Keep(s, maxCount) == s)
    ensures maxCount > 0 ==>
              |Keep(s, maxCount)| <= maxCount && (|Keep(s, maxCount)| < maxCount ==> Keep(s, maxCount) == s)
  {
  }

  /** How many of `n` archives survive. */
  ghost function Survivors(n: nat, maxCount: int): nat {
    if maxCount > 0 && n > maxCount - 1 then maxCount - 1 else n
  }

  ghost predicate PathsFit(c: Config, n: nat) {
    forall i :: 0 <= i <= n ==> |Path(c, i)| <= MAXLEN_PATH
  }

  ghost function Larger(i: nat, j: nat): nat { if i > j then i else j }

  predicate Dropped(c: Config, i: nat) { c.maxCount > 0 && i >= c.maxCount - 1 }

  /** The file at place `i` is renamed to the number of one at an earlier place, which has not moved yet. */
  ghost predicate ClashAt(c: Config, files: seq<File>, i: nat)
    requires i < |files|
  {
    !Dropped(c, i) && Nth(c, i + 1) in files[..i]
  }

  ghost predicate Clash(c: Config, files: seq<File>) {
    exists i :: 0 <= i < |files| && ClashAt(c, files, i)
  }

  /** A roll in progress: archives below place `i` are in place, the others have moved up or are gone. */
  ghost predicate Rolling(m: map<string, string>, c: Config, files: seq<File>, a: seq<string>, i: nat) {
    && i <= |files| == |a| && Distinct(files)
    && var size := Larger(i, Survivors(|a|, c.maxCount)); Held(m, c, MovedTo(c, files, i, size), a[..size])
  }

  /** One turn of the loop. */
  method RollStep(d: Dir, c: Config, path: string, i: nat) returns (rc: int)
    modifies d
    ensures rc == if path in old(d.files) && (Dropped(c, i) || |Path(c, i + 1)| <= MAXLEN_PATH) then 0 else -1
    ensures rc == 0 && Dropped(c, i) ==> d.files == old(d.files) - {path} && d.overwritten == old(d.overwritten)
    ensures rc == 0 && !Dropped(c, i) ==>
              var to := Path(c, i + 1);
              && d.files == (old(d.files) - {path})[to := old(d.files)[path]]
              && d.overwritten == old(d.overwritten) + if to in old(d.files) && to != path then [to] else []
    ensures rc != 0 ==> d.overwritten == old(d.overwritten)
  {
    hide Path;
    if c.maxCount > 0 && i >= c.maxCount - 1 {
      rc := d.Unlink(path);
    } else {
      var newPath := Path(c, i + 1);
      if |newPath| > MAXLEN_PATH {
        return -1;
      }
      rc := d.Rename(path, newPath);
    }
  }

  /** What a turn does to the archives: it replaces a live one if and only if there is a clash. */
  lemma RollNext(m: map<string, string>, c: Config, files: seq<File>, a: seq<string>, i: nat)
    requires ConfigOk(c) && i < |files| && Rolling(m, c, files, a, i + 1)
    requires Dropped(c, i) || |Path(c, i + 1)| <= MAXLEN_PATH
    ensures files[i].path in m && files[i].path != c.basePath && Path(c, i + 1) != c.basePath
    ensures !Dropped(c, i) ==> (Path(c, i + 1) in m && Path(c, i + 1) != files[i].path <==> ClashAt(c, files, i))
    ensures Dropped(c, i) ==> Rolling(m - {files[i].path}, c, files, a, i)
    ensures !Dropped(c, i) && !ClashAt(c, files, i) ==>
              Rolling((m - {files[i].path})[Path(c, i + 1) := m[files[i].path]], c, files, a, i)
  {
    hide Path, IsArchive, Held, MovedTo, ClashAt;
    var size := Larger(i + 1, Survivors(|a|, c.maxCount));
    var now, cont := MovedTo(c, files, i + 1, size), a[..size];
    HeldAt(m, c, now, cont, i);
    if Dropped(c, i) {
      HeldUnlinked(m, c, now, cont, i);
      assert now[..i] + now[i + 1..] == MovedTo(c, files, i, i) && cont[..i] + cont[i + 1..] == a[..i];
    } else {
      MoveNext(m, c, files, cont, i, size);
    }
  }

  lemma MoveNext(m: map<string, string>, c: Config, files: seq<File>, cont: seq<string>, i: nat, size: nat)
    requires ConfigOk(c) && i < |files| && i < size && Distinct(files)
    requires Held(m, c, MovedTo(c, files, i + 1, size), cont)
    requires !Dropped(c, i) && |Path(c, i + 1)| <= MAXLEN_PATH
    ensures files[i].path in m
    ensures Path(c, i + 1) in m && Path(c, i + 1) != files[i].path <==> ClashAt(c, files, i)
    ensures !ClashAt(c, files, i) ==>
              Held((m - {files[i].path})[Path(c, i + 1) := m[files[i].path]], c, MovedTo(c, files, i, size), cont)
  {
    hide Path, IsArchive, Held, MovedTo;
    var now := MovedTo(c, files, i + 1, size);
    HeldAt(m, c, now, cont, i);
    LiveExactly(m, c, now, cont, i + 1);
    TargetListed(c, files, i, size);
    if now[i].path == Path(c, i + 1) {
      NthIsArchive(c, i + 1);
      ArchivePath(c, now[i], Nth(c, i + 1));
      assert MovedTo(c, files, i, size) == now;
      assert (m - {files[i].path})[Path(c, i + 1) := m[files[i].path]] == m;
      EarlierElsewhere(c, files, i);
    } else if Nth(c, i + 1) !in now {
      HeldRenamed(m, c, now, cont, i, i + 1);
      assert now[i := Nth(c, i + 1)] == MovedTo(c, files, i, size);
    }
  }

  /** Where the number a file moves to can be listed: at its own place or an earlier one. */
  lemma TargetListed(c: Config, files: seq<File>, i: nat, size: nat)
    requires i < |files| && i < size
    ensures Nth(c, i + 1) in MovedTo(c, files, i + 1, size) <==>
            Nth(c, i + 1) in files[..i] || Nth(c, i + 1) == files[i]
  {
    hide Path;
    var now := MovedTo(c, files, i + 1, size);
    if Nth(c, i + 1) in now {
      var k :| 0 <= k < size && now[k] == Nth(c, i + 1);
      assert k < i ==> files[..i][k] == now[k];
    }
    if Nth(c, i + 1) in files[..i] {
      var k :| 0 <= k < i && files[..i][k] == Nth(c, i + 1);
      assert now[k] == Nth(c, i + 1);
    }
    assert now[i] == files[i];
  }

  lemma EarlierElsewhere(c: Config, files: seq<File>, i: nat)
    requires Distinct(files) && i < |files| && files[i] == Nth(c, i + 1)
    ensures Nth(c, i + 1) !in files[..i]
  {
  }

  lemma RollStart(m: map<string, string>, c: Config, files: seq<File>, a: seq<string>)
    requires Held(m, c, files, a)
    ensures Rolling(m, c, files, a, |files|)
  {
    hide IsArchive;
    assert MovedTo(c, files, |files|, |files|) == files && a[..|a|] == a;
  }

  /** The log takes number 0. */
  lemma RollEnd(m: map<string, string>, c: Config, files: seq<File>, a: seq<string>)
    requires ConfigOk(c) && Rolling(m, c, files, a, 0) && c.basePath in m && |Path(c, 0)| <= MAXLEN_PATH
    ensures var keep := Keep([m[c.basePath]] + a, c.maxCount);
            Path(c, 0) !in m && Held((m - {c.basePath})[Path(c, 0) := m[c.basePath]], c, Numbers(c, |keep|), keep)
  {
    hide Path;
    hide IsArchive;
    hide Held;
    var kept := Survivors(|a|, c.maxCount);
    var now, cont := MovedTo(c, files, 0, kept), a[..kept];
    assert Nth(c, 0) !in now by {
      assert forall k :: 0 <= k < kept ==> now[k].index == k + 1;
    }
    HeldArchived(m, c, now, cont, 0, 0);
    assert now[..0] + [Nth(c, 0)] + now[0..] == Numbers(c, kept + 1);
    assert cont[..0] + [m[c.basePath]] + cont[0..] == Keep([m[c.basePath]] + a, c.maxCount);
  }

  /** One rotation of a log `b` with archives `a`, whatever their numbers: no rename replaces a live file if and only
      if there is no clash, and then the archives are the first of [b] + a, numbered from 0. */
  method RollFiles(d: Dir, c: Config, list: ArrayList<File>, ghost files: seq<File>, ghost a: seq<string>)
    returns (rc: int)
    requires ConfigOk(c) && Held(d.files, c, files, a) && c.basePath in d.files
    requires list.Valid() && Lists(list.Contents(), files)
    modifies d
    ensures old(d.overwritten) <= d.overwritten
    ensures PathsFit(c, |files|) ==> (d.overwritten == old(d.overwritten) <==> !Clash(c, files))
    ensures !Clash(c, files) ==> d.overwritten == old(d.overwritten) && (PathsFit(c, |files|) ==> rc == 0)
    ensures !Clash(c, files) && rc == 0 ==>
              var keep := Keep([old(d.files[c.basePath])] + a, c.maxCount);
              Held(d.files, c, Numbers(c, |keep|), keep) && c.basePath !in d.files
  {
    hide Path, IsArchive, Held, Rolling, ClashAt, Survivors;
    ghost var base, clashed := d.files[c.basePath], false;
    RollStart(d.files, c, files, a);
    HeldShape(d.files, c, files, a);
    var i := list.len - 1;
    while i > -1
      invariant -1 <= i < |files| && old(d.overwritten) <= d.overwritten
      invariant clashed ==> |d.overwritten| > |old(d.overwritten)| && Clash(c, files)
      invariant !clashed ==> Rolling(d.files, c, files, a, i + 1) && d.overwritten == old(d.overwritten)
      invariant !clashed ==> c.basePath in d.files && d.files[c.basePath] == base
      invariant !clashed ==> forall j :: i < j < |files| ==> !ClashAt(c, files, j)
    {
      assert list.Contents()[i] == Item(files[i]);
      ghost var m := d.files;
      rc := RollStep(d, c, list.cells[i].value.path, i);
      if !clashed {
        RollLive(m, c, files, a, i);
      }
      if rc != 0 {
        return -1;
      }
      if !clashed {
        RollNext(m, c, files, a, i);
        clashed := ClashAt(c, files, i);
        ClashDropped(c, files, i);
      }
      i := i - 1;
    }
    var newPath := Path(c, 0);
    if |newPath| > MAXLEN_PATH {
      return -1;
    }
    if !clashed {
      RollEnd(d.files, c, files, a);
    }
    rc := d.Rename(c.basePath, newPath);
  }

  lemma ClashDropped(c: Config, files: seq<File>, i: nat)
    requires i < |files|
    ensures ClashAt(c, files, i) ==> !Dropped(c, i)
  {
  }

  lemma RollLive(m: map<string, string>, c: Config, files: seq<File>, a: seq<string>, i: nat)
    requires i < |files| && Rolling(m, c, files, a, i + 1)
    ensures files[i].path in m
  {
    var size := Larger(i + 1, Survivors(|a|, c.maxCount));
    HeldAt(m, c, MovedTo(c, files, i + 1, size), a[..size], i);
  }

  /** zlog_rotater_lsmv for a rolling archive path; `files` and `a` are what the listing found. */
  method Roll(d: Dir, c: Config) returns (rc: int, ghost files: seq<File>, ghost a: seq<string>)
    requires ConfigOk(c) && c.basePath in d.files
    modifies d
    ensures Held(old(d.files), c, files, a) && Sorted(files) && old(d.overwritten) <= d.overwritten
    ensures PathsFit(c, |files|) ==> (d.overwritten == old(d.overwritten) <==> !Clash(c, files))
    ensures !Clash(c, files) ==> d.overwritten == old(d.overwritten) && (PathsFit(c, |files|) ==> rc == 0)
    ensures !Clash(c, files) && rc == 0 ==>
              var keep := Keep([old(d.files[c.basePath])] + a, c.maxCount);
              Held(d.files, c, Numbers(c, |keep|), keep) && c.basePath !in d.files
  {
    hide Path, Held, ConfigOk, Clash;
    var list;
    list, files, a := AddArchiveFiles(d, c);
    rc := RollFiles(d, c, list, files, a);
  }

  /** The archives with the given numbers, under their own names. */
  ghost function Named(c: Config, idx: seq<nat>): (files: seq<File>)
    ensures |files| == |idx| && forall k :: 0 <= k < |idx| ==> files[k] == Nth(c, idx[k])
  {
    if idx == [] then [] else Named(c, idx[..|idx| - 1]) + [Nth(c, idx[|idx| - 1])]
  }

  /** Among them a clash is a place that is renamed whose next number stands at an earlier place. */
  lemma ClashNumbers(c: Config, idx: seq<nat>, i: nat)
    requires i < |idx|
    ensures ClashAt(c, Named(c, idx), i) <==> !Dropped(c, i) && i + 1 in idx[..i]
  {
    hide Path;
    var files := Named(c, idx);
    assert forall k :: 0 <= k < i ==> files[..i][k] == Nth(c, idx[..i][k]);
    if i + 1 in idx[..i] {
      var k :| 0 <= k < i && idx[..i][k] == i + 1;
      assert files[..i][k] == Nth(c, i + 1);
    }
  }

  /** Numbers without a gap never clash. */
  lemma NoGapNoClash(c: Config, n: nat)
    ensures !Clash(c, Numbers(c, n))
  {
    hide Path;
    var files := Numbers(c, n);
    forall i | 0 <= i < n
      ensures Nth(c, i + 1) !in files[..i]
    {
      assert forall k :: 0 <= k < i ==> files[..i][k].index == k;
    }
  }

  /** With archives 0, 3 and 4 the last one replaces the one before it. */
  lemma GapClash(c: Config)
    requires c.maxCount <= 0 || c.maxCount > 3
    ensures Clash(c, Named(c, [0, 3, 4]))
  {
    hide Path;
    var idx: seq<nat> := [0, 3, 4];
    assert idx[..2][1] == 3;
    ClashNumbers(c, idx, 2);
  }

  ghost function Reversed(s: seq<string>): seq<string> {
    if s == [] then [] else [s[|s| - 1]] + Reversed(s[..|s| - 1])
  }

  /** What a run of rotations leaves of `logs` and the archives `a` from before it. */
  ghost function Archived(a: seq<string>, logs: seq<string>, maxCount: int): seq<string> {
    if logs == [] then a else Keep(Reversed(logs) + a, maxCount)
  }

  lemma ArchivedNext(a: seq<string>, logs: seq<string>, i: nat, maxCount: int)
    requires i < |logs|
    ensures Keep([logs[i]] + Archived(a, logs[..i], maxCount), maxCount) == Archived(a, logs[..i + 1], maxCount)
    ensures |Archived(a, logs[..i], maxCount)| <= if maxCount > 0 then Larger(|a|, maxCount) else |a| + i
  {
    assert logs[..i + 1][..i] == logs[..i];
    ReversedLength(logs[..i]);
    if i == 0 {
      assert Reversed(logs[..1]) == [logs[0]];
    } else {
      assert Reversed(logs[..i + 1]) + a == [logs[i]] + (Reversed(logs[..i]) + a);
    }
  }

  lemma {:induction false} ReversedLength(s: seq<string>)
    ensures |Reversed(s)| == |s| && forall k :: 0 <= k < |s| ==> Reversed(s)[k] == s[|s| - 1 - k]
  {
    if s != [] { ReversedLength(s[..|s| - 1]); }
  }

  /** The files of a run: those from before it, then the numbers from 0. */
  ghost function RunFiles(c: Config, files: seq<File>, logs: seq<string>, n: nat): seq<File> {
    if logs == [] then files else Numbers(c, n)
  }

  lemma NumbersAscending(c: Config, n: nat)
    ensures Ascending(Numbers(c, n))
  {
    hide Path;
  }

  /** The rotations after the first: the archives are 0 to n - 1, so that no clash can come any more. */
  lemma RollAgain(m: map<string, string>, c: Config, left: seq<string>, found: seq<File>, cont: seq<string>)
    requires Held(m, c, Numbers(c, |left|), left) && Held(m, c, found, cont) && Sorted(found)
    ensures cont == left && |found| == |left| && !Clash(c, found)
  {
    hide Path, Held, Clash;
    NumbersAscending(c, |left|);
    HeldUnique(m, c, Numbers(c, |left|), left, found, cont);
    NoGapNoClash(c, |left|);
  }

  /** The listings of one directory are equally long. */
  lemma SameSize(m: map<string, string>, c: Config, a: seq<File>, cont: seq<string>, b: seq<File>, cont': seq<string>)
    requires Held(m, c, a, cont) && Held(m, c, b, cont')
    ensures |a| == |b| == |cont| == |cont'| && forall f :: f in a <==> f in b
  {
    hide IsArchive;
    SameLength(a, b);
  }

  /** Over any run that fills and rotates a log, from any archives: nothing is ever overwritten if and only if the
      files as the first rotation lists them do not clash, and then the archives are the logs, newest first, then
      those from before the run in the order of that listing, as many as may be kept. */
  method RollRun(d: Dir, c: Config, logs: seq<string>, ghost before: seq<File>, ghost a0: seq<string>)
    returns (ok: bool, ghost files: seq<File>, ghost a: seq<string>)
    requires ConfigOk(c) && Held(d.files, c, before, a0) && Sorted(before)
    requires PathsFit(c, if c.maxCount > 0 then Larger(|a0|, c.maxCount) else |a0| + |logs|)
    modifies d
    ensures Held(old(d.files), c, files, a) && Sorted(files)
    ensures d.overwritten == old(d.overwritten) <==> logs == [] || !Clash(c, files)
    ensures logs == [] || !Clash(c, files) ==>
              var left := Archived(a, logs, c.maxCount); ok && Held(d.files, c, RunFiles(c, files, logs, |left|), left)
  {
    hide Path, Held, ConfigOk, Keep, Archived, Clash, Sorted, RunFiles;
    ok, files, a := true, before, a0;
    SameSize(d.files, c, before, a0, before, a0);
    for i := 0 to |logs|
      invariant Held(old(d.files), c, files, a) && Sorted(files) && |files| == |a| == |a0|
      invariant old(d.overwritten) <= d.overwritten
      invariant i == 0 ==> ok && d.files == old(d.files) && d.overwritten == old(d.overwritten)
      invariant i > 0 && Clash(c, files) ==> d.overwritten != old(d.overwritten)
      invariant i > 0 && !Clash(c, files) ==>
                  var left := Archived(a, logs[..i], c.maxCount);
                  ok && d.overwritten == old(d.overwritten) && Held(d.files, c, Numbers(c, |left|), left)
    {
      ghost var m := d.files;
      d.Write(c.basePath, logs[i]);
      ghost var m' := d.files;
      var rc; ghost var found, cont;
      rc, found, cont := Roll(d, c);
      HeldWritten(m, c, found, cont, logs[i]);
      if i == 0 {
        SameSize(m, c, files, a, found, cont);
        files, a := found, cont;
        ArchivedNone(a, logs[..0], c.maxCount);
        ArchivedNext(a, logs, 0, c.maxCount);
      } else if !Clash(c, files) {
        ArchivedNext(a, logs, i, c.maxCount);
        RollAgain(m, c, Archived(a, logs[..i], c.maxCount), found, cont);
      }
      ok := ok && rc == 0;
    }
    assert logs[..|logs|] == logs;
    ArchivedNone(a, logs[..0], c.maxCount);
    RunFilesNumbers(c, files, logs);
  }

  lemma RunFilesNumbers(c: Config, files: seq<File>, logs: seq<string>)
    ensures forall n: nat :: RunFiles(c, files, logs, n) == if logs == [] then files else Numbers(c, n)
  {
  }

  lemma ArchivedNone(a: seq<string>, logs: seq<string>, maxCount: int)
    requires logs == []
    ensures Archived(a, logs, maxCount) == a
  {
  }

  // ---------------------------------------------------------------- sequence

  /** The last `count` elements, all of them without a limit. */
  ghost function Latest<T>(s: seq<T>, count: int): seq<T> {
    if count > 0 && |s| > count then s[|s| - count..] else s
  }

  ghost function NextNumber(files: seq<File>): nat {
    if files == [] then 0 else Larger(|files| - 1, files[|files| - 1].index) + 1
  }

  /** As many as may be kept, from the end. */
  lemma LatestMeaning<T>(s: seq<T>, count: int)
    ensures |Latest(s, count)| <= |s| && Latest(s, count) == s[|s| - |Latest(s, count)|..]
    ensures count <= 0 ==> Latest(s, count) == s
    ensures count > 0 ==> |Latest(s, count)| <= count && (|Latest(s, count)| < count ==> Latest(s, count) == s)
  {
  }

  /** The new number is the least that exceeds every existing one and is not below their count. */
  lemma NextMeaning(files: seq<File>, y: nat)
    requires Sorted(files) && y >= |files| && forall k :: 0 <= k < |files| ==> files[k].index < y
    ensures |files| <= NextNumber(files) <= y && forall k :: 0 <= k < |files| ==> files[k].index < NextNumber(files)
  {
    NextIsNew(files);
  }

  /** The new number exceeds every existing one. */
  lemma NextIsNew(files: seq<File>)
    requires Sorted(files)
    ensures forall k :: 0 <= k < |files| ==> files[k].index < NextNumber(files)
  {
    assert forall k :: 0 <= k < |files| ==> files[k].index <= files[|files| - 1].index;
  }

  lemma LatestBelow(files: seq<File>, count: int)
    requires Sorted(files)
    ensures forall k :: 0 <= k < |Latest(files, count)| ==> Latest(files, count)[k].index < NextNumber(files)
  {
    NextIsNew(files);
  }

  lemma HeldAppended(m: map<string, string>, c: Config, files: seq<File>, cont: seq<string>, y: nat)
    requires ConfigOk(c) && Held(m, c, files, cont) && c.basePath in m && |Path(c, y)| <= MAXLEN_PATH
    requires forall k :: 0 <= k < |files| ==> files[k].index < y
    ensures Path(c, y) !in m
    ensures Held((m - {c.basePath})[Path(c, y) := m[c.basePath]], c, files + [Nth(c, y)], cont + [m[c.basePath]])
  {
    hide Path;
    hide IsArchive;
    HeldShape(m, c, files, cont);
    hide Held;
    assert files[..|files|] + [Nth(c, y)] + files[|files|..] == files + [Nth(c, y)];
    assert cont[..|files|] + [m[c.basePath]] + cont[|files|..] == cont + [m[c.basePath]];
    HeldArchived(m, c, files, cont, |files|, y);
  }

  /** The archives with the lowest numbers go until maxCount are left. */
  method DropOldest(d: Dir, c: Config, list: ArrayList<File>, ghost files: seq<File>, ghost cont: seq<string>)
    returns (rc: int)
    requires Held(d.files, c, files, cont) && c.basePath in d.files
    requires list.Valid() && Lists(list.Contents(), files)
    modifies d
    ensures rc == 0 && d.overwritten == old(d.overwritten)
    ensures c.basePath in d.files && d.files[c.basePath] == old(d.files[c.basePath])
    ensures Held(d.files, c, Latest(files, c.maxCount), Latest(cont, c.maxCount))
  {
    hide IsArchive, Held;
    HeldShape(d.files, c, files, cont);
    ghost var drop := if c.maxCount > 0 && |files| > c.maxCount then |files| - c.maxCount else 0;
    assert files[0..] == files && cont[0..] == cont;
    for i := 0 to list.len
      invariant Held(d.files, c, files[if i < drop then i else drop..], cont[if i < drop then i else drop..])
      invariant c.basePath in d.files && d.files[c.basePath] == old(d.files[c.basePath])
      invariant d.overwritten == old(d.overwritten)
    {
      assert list.Contents()[i] == Item(files[i]);
      if c.maxCount > 0 && i < list.len - c.maxCount {
        HeldUnlinked(d.files, c, files[i..], cont[i..], 0);
        HeldAt(d.files, c, files[i..], cont[i..], 0);
        assert files[i..][..0] + files[i..][1..] == files[i + 1..] && cont[i..][..0] + cont[i..][1..] == cont[i + 1..];
        rc := d.Unlink(list.cells[i].value.path);
        if rc != 0 {
          return -1;
        }
      }
    }
    rc := 0;
  }

  /** Then the log takes a number above all others, so that nothing is replaced whatever the directory holds. */
  method SeqFiles(d: Dir, c: Config, list: ArrayList<File>, ghost files: seq<File>, ghost cont: seq<string>)
    returns (rc: int)
    requires ConfigOk(c) && Held(d.files, c, files, cont) && Sorted(files) && c.basePath in d.files
    requires list.Valid() && Lists(list.Contents(), files)
    modifies d
    ensures d.overwritten == old(d.overwritten)
    ensures |Path(c, NextNumber(files))| <= MAXLEN_PATH ==> rc == 0
    ensures rc == 0 ==>
              && Held(d.files, c, Latest(files, c.maxCount) + [Nth(c, NextNumber(files))],
                      Latest(cont, c.maxCount) + [old(d.files[c.basePath])])
              && c.basePath !in d.files
  {
    hide Path, Held;
    HeldShape(d.files, c, files, cont);
    rc := DropOldest(d, c, list, files, cont);
    var j := 0;
    if list.len > 0 {
      assert list.Contents()[list.len - 1] == Item(files[|files| - 1]);
      var last := list.cells[list.len - 1].value.index;
      j := (if list.len - 1 > last then list.len - 1 else last) + 1;
    }
    var newPath := Path(c, j);
    if |newPath| > MAXLEN_PATH {
      return -1;
    }
    assert |list.Contents()| == |files| && j == NextNumber(files);
    LatestBelow(files, c.maxCount);
    HeldAppended(d.files, c, Latest(files, c.maxCount), Latest(cont, c.maxCount), j);
    rc := d.Rename(c.basePath, newPath);
  }

  /** What a run of rotations leaves of the archives `a` and `logs`, one more than maxCount. */
  ghost function Followed(a: seq<string>, logs: seq<string>, maxCount: int): seq<string> {
    if logs == [] then a else Latest(a + logs, if maxCount > 0 then maxCount + 1 else 0)
  }

  /** The next number follows the last. */
  lemma NextOfAppended(c: Config, files: seq<File>, count: int)
    requires Sorted(files)
    ensures var files' := Latest(files, count) + [Nth(c, NextNumber(files))];
            Sorted(files') && NextNumber(files') == NextNumber(files) + 1
  {
    hide Path;
    LatestBelow(files, count);
  }

  /** The next number does not depend on the order of equal ones. */
  lemma SameNext(m: map<string, string>, c: Config, a: seq<File>, cont: seq<string>, b: seq<File>, cont': seq<string>)
    requires Held(m, c, a, cont) && Held(m, c, b, cont') && Sorted(a) && Sorted(b)
    ensures NextNumber(a) == NextNumber(b)
  {
    hide Held;
    SameSize(m, c, a, cont, b, cont');
    if a != [] {
      var x, y := a[|a| - 1], b[|b| - 1];
      assert x in b && y in a;
      assert x.index <= y.index && y.index <= x.index;
    }
  }

  /** A file whose number exceeds all others is last in every listing in order. */
  lemma LastOfSorted(a: seq<File>, x: File, b: seq<File>)
    requires Distinct(a + [x]) && Distinct(b) && Sorted(b) && (forall f :: f in b <==> f in a + [x])
    requires forall k :: 0 <= k < |a| ==> a[k].index < x.index
    ensures b != [] && b[|b| - 1] == x && b == b[..|b| - 1] + [x] && |b| == |a| + 1
    ensures forall f :: f in b[..|b| - 1] <==> f in a
  {
    SameLength(a + [x], b);
    assert (a + [x])[|a|] == x && x in b;
    var y := b[|b| - 1];
    assert y in b;
    assert y.index >= x.index;
    var b' := b[..|b| - 1];
    assert b == b' + [y];
    forall f
      ensures f in b' <==> f in a
    {
      assert f in b' <==> f in b && f != y;
      assert f in a <==> f in a + [x] && f != x;
    }
  }

  /** The listing of the files before a rotation that agrees with a listing `order` after it: those that were
      dropped, then the others in the order of the latter. */
  lemma Reordered(m: map<string, string>, m': map<string, string>, c: Config, drop: nat,
                  files: seq<File>, cont: seq<string>, x: File, log: string, order: seq<File>, a: seq<string>)
    returns (order': seq<File>, a': seq<string>)
    requires Held(m, c, files, cont) && Sorted(files) && drop <= |files|
    requires Held(m', c, files[drop..] + [x], cont[drop..] + [log]) && Held(m', c, order, a) && Sorted(order)
    requires forall k :: drop <= k < |files| ==> files[k].index < x.index
    ensures Held(m, c, order', a') && Sorted(order')
    ensures |a'| == |cont| && a == a'[drop..] + [log]
  {
    hide IsArchive, Held, Sorted;
    var kept := files[drop..];
    HeldShape(m, c, files, cont);
    HeldShape(m', c, order, a);
    SameSize(m', c, kept + [x], cont[drop..] + [log], order, a);
    HeldShape(m', c, kept + [x], cont[drop..] + [log]);
    LastOfSorted(kept, x, order);
    var p, q := order[..|kept|], a[..|kept|];
    order', a' := files[..drop] + p, cont[..drop] + q;
    HeldAt(m', c, order, a, |kept|);
    HeldAt(m', c, kept + [x], cont[drop..] + [log], |kept|);
    assert a == q + [log] && a'[drop..] == q;
    forall k | 0 <= k < |kept|
      ensures p[k].path in m && m[p[k].path] == q[k]
    {
      KeptContent(m, m', c, drop, files, cont, x, log, order, a, k);
    }
    JoinMembers(files, drop, p);
    SortedPrefix(order, |kept|);
    SortedJoin(files, drop, p);
    HeldReordered(m, c, files, cont, order', a', drop);
  }

  lemma SortedPrefix(files: seq<File>, n: nat)
    requires Sorted(files) && Distinct(files) && n <= |files|
    ensures Sorted(files[..n]) && Distinct(files[..n])
  {
  }

  /** A file that is listed before and after a rotation has kept its content. */
  lemma KeptContent(m: map<string, string>, m': map<string, string>, c: Config, drop: nat,
                    files: seq<File>, cont: seq<string>, x: File, log: string, order: seq<File>, a: seq<string>, k: nat)
    requires Held(m, c, files, cont) && drop <= |files|
    requires Held(m', c, files[drop..] + [x], cont[drop..] + [log]) && Held(m', c, order, a)
    requires k < |order| && order[k] in files[drop..]
    ensures order[k].path in m && m[order[k].path] == a[k]
  {
    hide IsArchive, Held;
    var kept := files[drop..];
    HeldShape(m, c, files, cont);
    var j :| 0 <= j < |kept| && kept[j] == order[k];
    HeldAt(m', c, order, a, k);
    HeldAt(m', c, kept + [x], cont[drop..] + [log], j);
    HeldAt(m, c, files, cont, drop + j);
    assert (kept + [x])[j] == files[drop + j] && (cont[drop..] + [log])[j] == cont[drop + j];
  }

  /** Another order of the same files, from place `drop` on. */
  lemma HeldReordered(m: map<string, string>, c: Config, files: seq<File>, cont: seq<string>,
                      order: seq<File>, a: seq<string>, drop: nat)
    requires Held(m, c, files, cont) && |order| == |a| && drop <= |order| && drop <= |files|
    requires Distinct(order) && forall f :: f in order <==> f in files
    requires order[..drop] == files[..drop] && a[..drop] == cont[..drop]
    requires forall k :: 0 <= k < |order| - drop ==>
               order[drop..][k].path in m && m[order[drop..][k].path] == a[drop..][k]
    ensures Held(m, c, order, a)
  {
    hide IsArchive;
    forall k | 0 <= k < |order|
      ensures order[k].path in m && m[order[k].path] == a[k]
    {
      if k < drop {
        assert order[..drop][k] == files[..drop][k] && a[..drop][k] == cont[..drop][k];
      } else {
        assert order[drop..][k - drop] == order[k] && a[drop..][k - drop] == a[k];
      }
    }
  }

  /** A listing whose last part is put in another order. */
  lemma JoinMembers(files: seq<File>, drop: nat, p: seq<File>)
    requires Distinct(files) && drop <= |files| && Distinct(p) && forall f :: f in p <==> f in files[drop..]
    ensures Distinct(files[..drop] + p) && forall f :: f in files[..drop] + p <==> f in files
  {
    assert files == files[..drop] + files[drop..];
    forall i, j | 0 <= i < drop && 0 <= j < |p|
      ensures files[i] != p[j]
    {
      assert p[j] in p;
      var k :| 0 <= k < |files| - drop && files[drop..][k] == p[j];
      assert files[drop + k] == p[j];
    }
  }

  lemma SortedJoin(files: seq<File>, drop: nat, p: seq<File>)
    requires Sorted(files) && drop <= |files| && Sorted(p) && forall f :: f in p <==> f in files[drop..]
    ensures Sorted(files[..drop] + p)
  {
    forall i, j | 0 <= i < drop && 0 <= j < |p|
      ensures files[i].index <= p[j].index
    {
      assert p[j] in p;
      var k :| 0 <= k < |files| - drop && files[drop..][k] == p[j];
      assert files[drop + k] == p[j];
    }
  }

  ghost function Dropping(n: nat, count: int): nat {
    if count > 0 && n > count then n - count else 0
  }

  lemma LatestIsTail<T>(s: seq<T>, count: int)
    ensures Latest(s, count) == s[Dropping(|s|, count)..]
  {
  }

  /** What a whole run leaves is what the rest of it leaves of the archives after the first rotation. */
  lemma FollowedRest(a: seq<string>, logs: seq<string>, count: int)
    requires logs != []
    ensures Followed(Latest(a, count) + [logs[0]], logs[1..], count) == Followed(a, logs, count)
  {
    var pre, q := a[..Dropping(|a|, count)], Latest(a, count);
    LatestIsTail(a, count);
    assert a == pre + q;
    assert a + logs == pre + (q + [logs[0]] + logs[1..]);
    assert logs[1..] == [] ==> q + [logs[0]] + logs[1..] == q + [logs[0]];
    LatestOfJoin(pre, q + [logs[0]] + logs[1..], if count > 0 then count + 1 else 0);
    hide Latest;
  }

  lemma LatestOfJoin(pre: seq<string>, s: seq<string>, count: int)
    requires pre == [] || |s| >= count > 0
    ensures Latest(pre + s, count) == Latest(s, count)
    ensures |s| <= count || count <= 0 ==> Latest(s, count) == s
  {
    if pre == [] {
      assert pre + s == s;
    } else {
      assert (pre + s)[|pre + s| - count..] == s[|s| - count..];
    }
  }

  /** Over any run that fills and rotates a log, from any archives: they, in some listing by number, and the logs stay
      in order, the newest maxCount + 1 of them when there is a limit; and nothing was ever overwritten. */
  method SeqRun(d: Dir, c: Config, logs: seq<string>, ghost before: seq<File>, ghost a0: seq<string>)
    returns (ok: bool, ghost order: seq<File>, ghost a: seq<string>, ghost files: seq<File>)
    requires ConfigOk(c) && Held(d.files, c, before, a0) && Sorted(before) && PathsFit(c, NextNumber(before) + |logs|)
    modifies d
    ensures ok && d.overwritten == old(d.overwritten)
    ensures Held(old(d.files), c, order, a) && Sorted(order)
    ensures Held(d.files, c, files, Followed(a, logs, c.maxCount)) && Sorted(files)
    ensures NextNumber(files) == NextNumber(before) + |logs|
    ensures logs != [] && c.maxCount > 0 ==> |files| <= c.maxCount + 1
    decreases |logs|
  {
    hide Path, ConfigOk, Latest, NextNumber, Held, Followed, Sorted;
    FollowedNone(a0, c.maxCount);
    if logs == [] {
      return true, before, a0, before;
    }
    ghost var m0 := d.files;
    d.Write(c.basePath, logs[0]);
    ghost var m := d.files;
    HeldWritten(m0, c, before, a0, logs[0]);
    var list; ghost var found, cont;
    list, found, cont := AddArchiveFiles(d, c);
    SameNext(m, c, before, a0, found, cont);
    var rc := SeqFiles(d, c, list, found, cont);
    label mid:
    NextOfAppended(c, found, c.maxCount);
    ghost var now := Latest(found, c.maxCount) + [Nth(c, NextNumber(found))];
    ok, order, a, files := SeqRun(d, c, logs[1..], now, Latest(cont, c.maxCount) + [logs[0]]);
    ok := ok && rc == 0;
    order, a := SeqBack(m0, m, old@mid(d.files), c, found, cont, logs, order, a);
    FollowedSize(d.files, c, files, a, logs);
  }

  lemma FollowedNone(a: seq<string>, maxCount: int)
    ensures Followed(a, [], maxCount) == a
  {
  }

  lemma FollowedSize(m: map<string, string>, c: Config, files: seq<File>, a: seq<string>, logs: seq<string>)
    requires Held(m, c, files, Followed(a, logs, c.maxCount))
    ensures logs != [] && c.maxCount > 0 ==> |files| <= c.maxCount + 1
  {
    hide IsArchive;
  }

  /** From the listing a run starts with after its first rotation back to one from before it. */
  lemma SeqBack(m0: map<string, string>, m: map<string, string>, m': map<string, string>, c: Config,
                found: seq<File>, cont: seq<string>, logs: seq<string>, order: seq<File>, a: seq<string>)
    returns (order': seq<File>, a': seq<string>)
    requires logs != [] && m == m0[c.basePath := logs[0]] && Held(m, c, found, cont) && Sorted(found)
    requires Held(m', c, Latest(found, c.maxCount) + [Nth(c, NextNumber(found))], Latest(cont, c.maxCount) + [logs[0]])
    requires Held(m', c, order, a) && Sorted(order)
    ensures Held(m0, c, order', a') && Sorted(order')
    ensures Followed(a, logs[1..], c.maxCount) == Followed(a', logs, c.maxCount)
  {
    hide Path, Held, Sorted, Followed;
    HeldShape(m, c, found, cont);
    var drop := Dropping(|found|, c.maxCount);
    LatestIsTail(found, c.maxCount);
    LatestIsTail(cont, c.maxCount);
    NextIsNew(found);
    order', a' := Reordered(m, m', c, drop, found, cont, Nth(c, NextNumber(found)), logs[0], order, a);
    HeldWritten(m0, c, order', a', logs[0]);
    LatestIsTail(a', c.maxCount);
    FollowedRest(a', logs, c.maxCount);
  }
}
