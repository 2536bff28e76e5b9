/** A tiny model of the destination filesystem and of the four calls the extractor makes
    on it: mkdir, open with O_WRONLY|O_CREAT|O_TRUNC, writing the copied bytes, and
    stamping the DOS date, time and attributes.

    Paths are compared literally apart from trailing '/' characters (no "..", "." or
    repeated-separator resolution); a new entry can be created only inside an existing
    directory, named by `Parent`. */
module Host {
  import opened Wire
  import opened MercyPak

  /** A regular file: its bytes and the DOS metadata last stamped on it, if any. */
  datatype File = File(content: bytes, stamp: Option<DosMeta>)

  datatype FileSystem = FileSystem(dirs: set<string>, files: map<string, File>)

  /** A name is never both a directory and a file. */
  ghost predicate Consistent(fs: FileSystem)
  {
    fs.dirs !! fs.files.Keys
  }

  /** `p` without its trailing '/' characters, as the kernel resolves a path: "r/a/" names
      the directory "r/a". A path made only of '/' keeps one. */
  function TrimSlashes(p: string): (r: string)
    ensures |r| <= |p| && r == p[..|r|]
    ensures forall i :: |r| <= i < |p| ==> p[i] == '/'
    ensures |r| <= 1 || r[|r| - 1] != '/'
    ensures |p| > 0 ==> |r| > 0
  {
    if |p| > 1 && p[|p| - 1] == '/' then TrimSlashes(p[..|p| - 1]) else p
  }

  /** Everything before the last '/', or "" when there is none. */
  function BeforeLastSlash(p: string): (r: string)
    ensures |r| < |p| || (p == "" && r == "")
    ensures r == p[..|r|]
  {
    if |p| == 0 then ""
    else if p[|p| - 1] == '/' then p[..|p| - 1]
    else BeforeLastSlash(p[..|p| - 1])
  }

  /** The directory an entry `p` lives in, trailing '/' characters of both ignored. */
  function Parent(p: string): (r: string)
    ensures |r| < |p| || (p == "" && r == "")
    ensures r == p[..|r|]
  {
    var t := TrimSlashes(p);
    var b := BeforeLastSlash(t);
    assert b == p[..|b|];
    TrimSlashes(b)
  }

  /** The parent of "dir/name", with or without trailing '/' characters, is `dir`. */
  lemma ParentOfChild(dir: string, name: string, slashes: string)
    requires TrimSlashes(dir) == dir && name != "" && '/' !in name
    requires forall i :: 0 <= i < |slashes| ==> slashes[i] == '/'
    ensures Parent(dir + "/" + name + slashes) == dir
  {
    var child := dir + "/" + name;
    assert child[|child| - 1] == name[|name| - 1];
    TrimTrailing(child, slashes);
    BeforeSlashName(dir, name);
  }

  lemma {:induction false} TrimTrailing(x: string, slashes: string)
    requires |x| > 0 && x[|x| - 1] != '/'
    requires forall i :: 0 <= i < |slashes| ==> slashes[i] == '/'
    ensures TrimSlashes(x + slashes) == x
    decreases |slashes|
  {
    if |slashes| == 0 {
      assert x + slashes == x;
    } else {
      var init := slashes[..|slashes| - 1];
      assert (x + slashes)[..|x + slashes| - 1] == x + init;
      TrimTrailing(x, init);
    }
  }

  lemma {:induction false} BeforeSlashName(dir: string, name: string)
    requires '/' !in name
    ensures BeforeLastSlash(dir + "/" + name) == dir
    decreases |name|
  {
    var s := dir + "/" + name;
    if |name| == 0 {
      assert s[..|s| - 1] == dir;
    } else {
      var init := name[..|name| - 1];
      assert name[|name| - 1] in name;
      assert forall c :: c in init ==> c in name;
      assert s[..|s| - 1] == dir + "/" + init;
      BeforeSlashName(dir, init);
    }
  }

  function Exists(fs: FileSystem, p: string): bool
  {
    p in fs.dirs || p in fs.files
  }

  datatype MkDirResult = MkDirResult(fs: FileSystem, ok: bool)

  /** mkdir(p) counted the way the installer counts it: success, or failure with EEXIST.
      The directory made is `TrimSlashes(p)`. */
  function MkDir(fs: FileSystem, p: string): (r: MkDirResult)
    ensures r.ok <==> Exists(fs, TrimSlashes(p)) || Parent(p) in fs.dirs
    ensures Exists(fs, TrimSlashes(p)) ==> r.fs == fs
    ensures r.ok ==> Exists(r.fs, TrimSlashes(p))
    ensures !r.ok ==> r.fs == fs
    ensures r.fs.files == fs.files && fs.dirs <= r.fs.dirs <= fs.dirs + {TrimSlashes(p)}
    ensures Consistent(fs) ==> Consistent(r.fs)
  {
    var d := TrimSlashes(p);
    if Exists(fs, d) then MkDirResult(fs, true)
    else if Parent(p) in fs.dirs then MkDirResult(fs.(dirs := fs.dirs + {d}), true)
    else MkDirResult(fs, false)
  }

  predicate EndsInSlash(p: string)
  {
    |p| > 0 && p[|p| - 1] == '/'
  }

  /** When open(p, O_WRONLY | O_CREAT | O_TRUNC) succeeds: `p` does not end in '/' (the
      kernel refuses that with EISDIR or ENOTDIR), names no directory, and is an existing
      file or a new name in an existing directory. */
  predicate Openable(fs: FileSystem, p: string)
  {
    !EndsInSlash(p) && p !in fs.dirs && (p in fs.files || Parent(p) in fs.dirs)
  }

  /** open(p, O_WRONLY | O_CREAT | O_TRUNC): `None` when the call fails. The file is left
      empty; the date and time the truncation gives it come from the clock and are recorded
      as no stamp. */
  function Open(fs: FileSystem, p: string): (r: Option<FileSystem>)
    ensures r.Some? <==> Openable(fs, p)
    ensures r.Some? ==> r.value.dirs == fs.dirs && r.value.files.Keys == fs.files.Keys + {p}
    ensures r.Some? ==> r.value.files[p] == File([], None)
    ensures r.Some? ==> forall q :: q in fs.files && q != p ==> r.value.files[q] == fs.files[q]
    ensures r.Some? && Consistent(fs) ==> Consistent(r.value)
  {
    if Openable(fs, p) then Some(fs.(files := fs.files[p := File([], None)])) else None
  }

  /** Writes `content` from offset 0 of a file that is open and was just truncated. */
  function Write(fs: FileSystem, p: string, content: bytes): (r: FileSystem)
    requires p in fs.files
    ensures r.dirs == fs.dirs && r.files.Keys == fs.files.Keys
    ensures r.files[p] == File(content, fs.files[p].stamp)
    ensures forall q :: q in fs.files && q != p ==> r.files[q] == fs.files[q]
  {
    fs.(files := fs.files[p := fs.files[p].(content := content)])
  }

  /** Applies the DOS date, time and attributes to an open file. */
  function Stamp(fs: FileSystem, p: string, meta: DosMeta): (r: FileSystem)
    requires p in fs.files
    ensures r.dirs == fs.dirs && r.files.Keys == fs.files.Keys
    ensures r.files[p] == File(fs.files[p].content, Some(meta))
    ensures forall q :: q in fs.files && q != p ==> r.files[q] == fs.files[q]
  {
    fs.(files := fs.files[p := fs.files[p].(stamp := Some(meta))])
  }

  /** A destination file of one record: its resolved path and the metadata to stamp. */
  datatype Target = Target(path: string, meta: DosMeta)

  function TargetPaths(ts: seq<Target>): set<string>
  {
    set i | 0 <= i < |ts| :: ts[i].path
  }

  lemma TargetPathsCons(t: Target, ts: seq<Target>)
    ensures TargetPaths([t] + ts) == {t.path} + TargetPaths(ts)
  {
    var all := [t] + ts;
    assert all[0].path == t.path;
    forall q | q in TargetPaths(ts) ensures q in TargetPaths(all) {
      var i :| 0 <= i < |ts| && ts[i].path == q;
      assert all[i + 1].path == q;
    }
  }

  /** Metadata of the last target naming `p`: the stamp that ends up on `p`. */
  function LastMeta(ts: seq<Target>, p: string): DosMeta
    requires p in TargetPaths(ts)
  {
    var last := ts[|ts| - 1];
    if last.path == p then last.meta
    else
      assert p in TargetPaths(ts[..|ts| - 1]) by {
        var i :| 0 <= i < |ts| && ts[i].path == p;
        assert ts[..|ts| - 1][i].path == p;
      }
      LastMeta(ts[..|ts| - 1], p)
  }

  /** A target named by no later target keeps its own metadata. */
  lemma {:induction false} LastMetaOwn(ts: seq<Target>, i: nat)
    requires i < |ts|
    requires forall j :: i < j < |ts| ==> ts[j].path != ts[i].path
    ensures ts[i].path in TargetPaths(ts)
    ensures LastMeta(ts, ts[i].path) == ts[i].meta
    decreases |ts|
  {
    assert ts[i].path in TargetPaths(ts);
    if i < |ts| - 1 {
      var init := ts[..|ts| - 1];
      assert init[i] == ts[i];
      LastMetaOwn(init, i);
    }
  }

  /** One bulk copy writing the same bytes to every open target. */
  function WriteAll(fs: FileSystem, ts: seq<Target>, content: bytes): (r: FileSystem)
    requires TargetPaths(ts) <= fs.files.Keys
    ensures r.dirs == fs.dirs && r.files.Keys == fs.files.Keys
    ensures forall q :: q in fs.files ==>
      r.files[q] == if q in TargetPaths(ts) then File(content, fs.files[q].stamp) else fs.files[q]
  {
    if |ts| == 0 then fs
    else
      var init := ts[..|ts| - 1];
      assert TargetPaths(ts) == TargetPaths(init) + {ts[|ts| - 1].path};
      Write(WriteAll(fs, init, content), ts[|ts| - 1].path, content)
  }

  /** Stamps every target in order, so a path named twice keeps the later metadata. */
  function StampAll(fs: FileSystem, ts: seq<Target>): (r: FileSystem)
    requires TargetPaths(ts) <= fs.files.Keys
    ensures r.dirs == fs.dirs && r.files.Keys == fs.files.Keys
    ensures forall q :: q in fs.files ==>
      r.files[q] == if q in TargetPaths(ts) then File(fs.files[q].content, Some(LastMeta(ts, q))) else fs.files[q]
  {
    if |ts| == 0 then fs
    else
      var init := ts[..|ts| - 1];
      assert TargetPaths(ts) == TargetPaths(init) + {ts[|ts| - 1].path};
      Stamp(StampAll(fs, init), ts[|ts| - 1].path, ts[|ts| - 1].meta)
  }

  datatype OpenAllResult = AllOpened(fs: FileSystem) | OpenRefused(fs: FileSystem, path: string)

  /** Opens the targets in order, stopping at the first refusal. */
  function OpenAll(fs: FileSystem, ts: seq<Target>): (r: OpenAllResult)
    ensures r.fs.dirs == fs.dirs
    ensures r.AllOpened? ==> r.fs.files.Keys == fs.files.Keys + TargetPaths(ts)
    ensures r.AllOpened? ==> forall q :: q in TargetPaths(ts) ==> r.fs.files[q] == File([], None)
    ensures r.AllOpened? ==> forall q :: q in fs.files && q !in TargetPaths(ts) ==> r.fs.files[q] == fs.files[q]
    ensures r.AllOpened? && Consistent(fs) ==> Consistent(r.fs)
    ensures r.OpenRefused? ==> r.path in TargetPaths(ts)
    decreases |ts|
  {
    if |ts| == 0 then AllOpened(fs)
    else
      assert ts == [ts[0]] + ts[1..];
      TargetPathsCons(ts[0], ts[1..]);
      match Open(fs, ts[0].path)
      case None => OpenRefused(fs, ts[0].path)
      case Some(fs1) =>
        match OpenAll(fs1, ts[1..])
        case OpenRefused(fs2, p) => OpenRefused(fs2, p)
        case AllOpened(fs2) => AllOpened(fs2)
  }

  /** A run of opens succeeds exactly when every target could be opened on its own: an
      earlier open only creates its own path, which a later target naming it can open too. */
  lemma {:induction false} OpenAllCompletes(fs: FileSystem, ts: seq<Target>)
    ensures OpenAll(fs, ts).AllOpened? <==> forall i :: 0 <= i < |ts| ==> Openable(fs, ts[i].path)
    decreases |ts|
  {
    if |ts| > 0 {
      match Open(fs, ts[0].path)
      case None =>
      case Some(fs1) =>
        OpenAllCompletes(fs1, ts[1..]);
        forall i | 0 <= i < |ts| - 1
          ensures Openable(fs1, ts[1..][i].path) <==> Openable(fs, ts[i + 1].path)
        {
          assert ts[1..][i] == ts[i + 1];
        }
    }
  }

  /** How an extraction ends: stopped by a failure, or finished (the installer returns true). */
  datatype Outcome = Aborted(fs: FileSystem, failure: Failure) | Completed(fs: FileSystem)
}
