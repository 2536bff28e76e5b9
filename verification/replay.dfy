/** What extracting a decoded archive does to the filesystem, stated record by record
    without any reading: mkdir for every directory record, then for V1 one open, copy and
    stamp per record, and for V2 the opens of a group, one copy of the shared content to
    all of them and a stamp per member. Directory failures are remembered and dropped;
    the first refused open ends the extraction.

    The lemmas here are about the final state: which paths exist, what every written path
    holds, and that a later record for the same path wins. */
module Replay {
  import opened Wire
  import opened MercyPak
  import opened Host
  import opened Archive

  // ---------------------------------------------------------------- directories

  datatype DirsApplied = DirsApplied(fs: FileSystem, ok: bool)

  /** The directories the records name: their destinations without trailing '/'. */
  function DirTargets(root: string, ds: seq<DirRecord>): set<string>
    requires ValidDirs(ds)
  {
    set i | 0 <= i < |ds| :: TrimSlashes(DestPath(root, ds[i].path))
  }

  /** mkdir of every directory record in order; a failure is remembered and the pass goes on. */
  function ApplyDirs(fs: FileSystem, root: string, ds: seq<DirRecord>): (r: DirsApplied)
    requires ValidDirs(ds)
    ensures r.fs.files == fs.files && fs.dirs <= r.fs.dirs
    ensures Consistent(fs) ==> Consistent(r.fs)
    decreases |ds|
  {
    if |ds| == 0 then DirsApplied(fs, true)
    else
      var m := MkDir(fs, DestPath(root, ds[0].path));
      var r := ApplyDirs(m.fs, root, ds[1..]);
      DirsApplied(r.fs, m.ok && r.ok)
  }

  /** The directory pass on a leading record: that mkdir, then the rest. */
  lemma ApplyDirsCons(fs: FileSystem, root: string, d: DirRecord, ds1: seq<DirRecord>)
    requires ValidPath(d.path) && ValidDirs(ds1)
    ensures ValidDirs([d] + ds1)
    ensures var m := MkDir(fs, DestPath(root, d.path));
      var r := ApplyDirs(m.fs, root, ds1);
      ApplyDirs(fs, root, [d] + ds1) == DirsApplied(r.fs, m.ok && r.ok)
  {
    assert ([d] + ds1)[0] == d && ([d] + ds1)[1..] == ds1;
  }

  /** The directory pass creates nothing but the directories it names. */
  lemma {:induction false} ApplyDirsOnlyNamed(fs: FileSystem, root: string, ds: seq<DirRecord>)
    requires ValidDirs(ds)
    ensures ApplyDirs(fs, root, ds).fs.dirs <= fs.dirs + DirTargets(root, ds)
    decreases |ds|
  {
    if |ds| > 0 {
      var m := MkDir(fs, DestPath(root, ds[0].path));
      ApplyDirsOnlyNamed(m.fs, root, ds[1..]);
      forall q | q in DirTargets(root, ds[1..]) ensures q in DirTargets(root, ds) {
        var i :| 0 <= i < |ds[1..]| && TrimSlashes(DestPath(root, ds[1..][i].path)) == q;
        assert ds[i + 1] == ds[1..][i];
      }
      assert TrimSlashes(DestPath(root, ds[0].path)) in DirTargets(root, ds);
    }
  }

  /** A directory pass that reports success leaves every named path in place. */
  lemma {:induction false} ApplyDirsCreates(fs: FileSystem, root: string, ds: seq<DirRecord>, i: nat)
    requires ValidDirs(ds) && i < |ds| && ApplyDirs(fs, root, ds).ok
    ensures Exists(ApplyDirs(fs, root, ds).fs, TrimSlashes(DestPath(root, ds[i].path)))
    decreases |ds|
  {
    var d := DestPath(root, ds[0].path);
    var m := MkDir(fs, d);
    var r := ApplyDirs(m.fs, root, ds[1..]);
    assert ApplyDirs(fs, root, ds) == DirsApplied(r.fs, m.ok && r.ok);
    if i > 0 {
      var k := i - 1;
      assert ds[1..][k] == ds[i];
      ApplyDirsCreates(m.fs, root, ds[1..], k);
    } else {
      assert Exists(m.fs, TrimSlashes(d));
    }
  }

  /** A failed mkdir does not stop the pass: every record whose directory can be made in
      the starting filesystem (it already exists, or its parent does) exists afterwards,
      whatever happened to the records before it. */
  lemma {:induction false} ApplyDirsAttempts(fs: FileSystem, root: string, ds: seq<DirRecord>, i: nat)
    requires ValidDirs(ds) && i < |ds|
    requires Exists(fs, TrimSlashes(DestPath(root, ds[i].path))) || Parent(DestPath(root, ds[i].path)) in fs.dirs
    ensures Exists(ApplyDirs(fs, root, ds).fs, TrimSlashes(DestPath(root, ds[i].path)))
    decreases |ds|
  {
    var d := DestPath(root, ds[0].path);
    var m := MkDir(fs, d);
    var r := ApplyDirs(m.fs, root, ds[1..]);
    assert ApplyDirs(fs, root, ds) == DirsApplied(r.fs, m.ok && r.ok);
    var t := TrimSlashes(DestPath(root, ds[i].path));
    if i > 0 {
      var k := i - 1;
      assert ds[1..][k] == ds[i];
      assert Exists(m.fs, t) || Parent(DestPath(root, ds[i].path)) in m.fs.dirs;
      ApplyDirsAttempts(m.fs, root, ds[1..], k);
    } else {
      assert Exists(m.fs, t);
      assert Exists(r.fs, t);
    }
  }

  // ---------------------------------------------------------------- V1 files

  /** Destinations of the V1 records. */
  function V1Targets(root: string, files: seq<V1File>): set<string>
    requires ValidV1Files(files)
  {
    set i | 0 <= i < |files| :: DestPath(root, files[i].path)
  }

  lemma V1TargetsCons(root: string, files: seq<V1File>)
    requires |files| > 0 && ValidV1Files(files)
    ensures ValidV1Files(files[1..])
    ensures V1Targets(root, files) == {DestPath(root, files[0].path)} + V1Targets(root, files[1..])
  {
    forall q | q in V1Targets(root, files[1..]) ensures q in V1Targets(root, files) {
      var i :| 0 <= i < |files[1..]| && DestPath(root, files[1..][i].path) == q;
      assert files[i + 1] == files[1..][i];
    }
    forall q | q in V1Targets(root, files) ensures q in {DestPath(root, files[0].path)} + V1Targets(root, files[1..]) {
      var i :| 0 <= i < |files| && DestPath(root, files[i].path) == q;
      if i > 0 {
        assert files[1..][i - 1] == files[i];
      }
    }
  }

  /** One V1 record: open (creating or truncating) the destination, copy the content, stamp it. */
  function ApplyV1File(fs: FileSystem, root: string, f: V1File): (r: Outcome)
    requires ValidV1File(f)
    ensures r.Completed? <==> Openable(fs, DestPath(root, f.path))
    ensures r.Aborted? ==> r == Aborted(fs, OpenFailed(DestPath(root, f.path)))
    ensures r.Completed? ==> r.fs.dirs == fs.dirs && r.fs.files.Keys == fs.files.Keys + {DestPath(root, f.path)}
    ensures r.Completed? ==> r.fs.files[DestPath(root, f.path)] == File(f.content, Some(f.meta))
    ensures r.Completed? ==> forall q :: q in fs.files && q != DestPath(root, f.path) ==> r.fs.files[q] == fs.files[q]
    ensures r.Completed? && Consistent(fs) ==> Consistent(r.fs)
  {
    var p := DestPath(root, f.path);
    match Open(fs, p)
    case None => Aborted(fs, OpenFailed(p))
    case Some(fs1) => Completed(Stamp(Write(fs1, p, f.content), p, f.meta))
  }

  /** The V1 records in order, stopping at the first refused open. */
  function ApplyV1Files(fs: FileSystem, root: string, files: seq<V1File>): (r: Outcome)
    requires ValidV1Files(files)
    ensures r.fs.dirs == fs.dirs
    ensures r.Aborted? ==> r.failure.OpenFailed?
    ensures r.Completed? ==> r.fs.files.Keys == fs.files.Keys + V1Targets(root, files)
    ensures r.Completed? ==> forall q :: q in fs.files && q !in V1Targets(root, files) ==> r.fs.files[q] == fs.files[q]
    ensures r.Completed? && Consistent(fs) ==> Consistent(r.fs)
    decreases |files|
  {
    if |files| == 0 then Completed(fs)
    else
      V1TargetsCons(root, files);
      match ApplyV1File(fs, root, files[0])
      case Aborted(fs1, e) => Aborted(fs1, e)
      case Completed(fs1) => ApplyV1Files(fs1, root, files[1..])
  }

  /** The V1 pass on a leading record: that record, then the rest unless it aborted. */
  lemma ApplyV1FilesUnfold(fs: FileSystem, root: string, f: V1File, files1: seq<V1File>)
    requires ValidV1File(f) && ValidV1Files(files1)
    ensures ValidV1Files([f] + files1)
    ensures var r := ApplyV1File(fs, root, f);
      ApplyV1Files(fs, root, [f] + files1) == if r.Aborted? then r else ApplyV1Files(r.fs, root, files1)
  {
    assert ([f] + files1)[0] == f && ([f] + files1)[1..] == files1;
  }

  /** A completed V1 pass completed its first record and then the rest. */
  lemma ApplyV1FilesCons(fs: FileSystem, root: string, files: seq<V1File>)
    requires ValidV1Files(files) && |files| > 0
    requires ApplyV1Files(fs, root, files).Completed?
    ensures ValidV1Files(files[1..])
    ensures ApplyV1File(fs, root, files[0]).Completed?
    ensures ApplyV1Files(fs, root, files) == ApplyV1Files(ApplyV1File(fs, root, files[0]).fs, root, files[1..])
  {
    V1TargetsCons(root, files);
  }

  /** After a completed V1 pass a path holds the content and metadata of the last record
      naming it, whatever earlier records wrote there. */
  lemma {:induction false} V1LastWriterWins(fs: FileSystem, root: string, files: seq<V1File>, i: nat)
    requires ValidV1Files(files) && i < |files|
    requires ApplyV1Files(fs, root, files).Completed?
    requires forall j :: i < j < |files| ==> DestPath(root, files[j].path) != DestPath(root, files[i].path)
    ensures DestPath(root, files[i].path) in ApplyV1Files(fs, root, files).fs.files
    ensures ApplyV1Files(fs, root, files).fs.files[DestPath(root, files[i].path)] == File(files[i].content, Some(files[i].meta))
    decreases |files|
  {
    ApplyV1FilesCons(fs, root, files);
    if i == 0 {
      V1FirstWriterWins(fs, root, files);
    } else {
      var fs1 := ApplyV1File(fs, root, files[0]).fs;
      assert files[1..][i - 1] == files[i];
      V1LastWriterWins(fs1, root, files[1..], i - 1);
    }
  }

  /** A path named by no later record is not a target of the later records. */
  lemma V1TargetsLater(root: string, files: seq<V1File>)
    requires ValidV1Files(files) && |files| > 0
    requires forall j :: 0 < j < |files| ==> DestPath(root, files[j].path) != DestPath(root, files[0].path)
    ensures ValidV1Files(files[1..])
    ensures DestPath(root, files[0].path) !in V1Targets(root, files[1..])
  {
    var tail := files[1..];
    forall q | q in V1Targets(root, tail) ensures q != DestPath(root, files[0].path) {
      var j :| 0 <= j < |tail| && DestPath(root, tail[j].path) == q;
      assert files[j + 1] == tail[j];
    }
  }

  /** The first record survives the pass when no later record names its path. */
  lemma V1FirstWriterWins(fs: FileSystem, root: string, files: seq<V1File>)
    requires ValidV1Files(files) && |files| > 0
    requires ApplyV1Files(fs, root, files).Completed?
    requires forall j :: 0 < j < |files| ==> DestPath(root, files[j].path) != DestPath(root, files[0].path)
    ensures DestPath(root, files[0].path) in ApplyV1Files(fs, root, files).fs.files
    ensures ApplyV1Files(fs, root, files).fs.files[DestPath(root, files[0].path)] == File(files[0].content, Some(files[0].meta))
  {
    ApplyV1FilesCons(fs, root, files);
    var fs1 := ApplyV1File(fs, root, files[0]).fs;
    var p := DestPath(root, files[0].path);
    var tail := files[1..];
    V1TargetsLater(root, files);
    var last := ApplyV1Files(fs1, root, tail).fs;
    assert p in fs1.files && fs1.files[p] == File(files[0].content, Some(files[0].meta));
    assert last.files[p] == fs1.files[p];
  }

  // ---------------------------------------------------------------- V2 groups

  /** The destination of every member of a group, with the member's own metadata. */
  function Targets(root: string, ms: seq<Member>): (ts: seq<Target>)
    requires ValidMembers(ms)
    ensures |ts| == |ms|
    ensures forall i :: 0 <= i < |ms| ==> ts[i] == Target(DestPath(root, ms[i].path), ms[i].meta)
    decreases |ms|
  {
    if |ms| == 0 then []
    else [Target(DestPath(root, ms[0].path), ms[0].meta)] + Targets(root, ms[1..])
  }

  /** One group: open every member in order, copy the shared content once to all of them,
      then stamp each with its own metadata. */
  function ApplyGroup(fs: FileSystem, root: string, g: Group): (r: Outcome)
    requires ValidGroup(g)
    ensures r.fs.dirs == fs.dirs
    ensures r.Aborted? ==> r.failure.OpenFailed?
    ensures r.Completed? ==> r.fs.files.Keys == fs.files.Keys + TargetPaths(Targets(root, g.members))
    ensures r.Completed? ==> forall q :: q in fs.files && q !in TargetPaths(Targets(root, g.members)) ==>
      r.fs.files[q] == fs.files[q]
    ensures r.Completed? && Consistent(fs) ==> Consistent(r.fs)
  {
    var ts := Targets(root, g.members);
    match OpenAll(fs, ts)
    case OpenRefused(fs1, p) => Aborted(fs1, OpenFailed(p))
    case AllOpened(fs1) => Completed(StampAll(WriteAll(fs1, ts, g.content), ts))
  }

  /** Every member of a completed group holds exactly the shared content, truncated first
      and written once, and the metadata of the last member naming its path. */
  lemma GroupSharesContent(fs: FileSystem, root: string, g: Group, q: string)
    requires ValidGroup(g) && ApplyGroup(fs, root, g).Completed?
    requires q in TargetPaths(Targets(root, g.members))
    ensures ApplyGroup(fs, root, g).fs.files[q] == File(g.content, Some(LastMeta(Targets(root, g.members), q)))
  {
    var ts := Targets(root, g.members);
    var fs1 := OpenAll(fs, ts).fs;
    var fs2 := WriteAll(fs1, ts, g.content);
    assert fs2.files[q] == File(g.content, fs1.files[q].stamp);
  }

  /** A group completes exactly when the destination of each member could be opened on
      its own, in the filesystem the group starts from. */
  lemma ApplyGroupCompletes(fs: FileSystem, root: string, g: Group)
    requires ValidGroup(g)
    ensures ApplyGroup(fs, root, g).Completed? <==>
      forall i :: 0 <= i < |g.members| ==> Openable(fs, DestPath(root, g.members[i].path))
  {
    OpenAllCompletes(fs, Targets(root, g.members));
  }

  /** A member whose path no later member of its group repeats ends up with the shared
      content and its own DOS metadata. */
  lemma GroupMemberOwnMeta(fs: FileSystem, root: string, g: Group, k: nat)
    requires ValidGroup(g) && ApplyGroup(fs, root, g).Completed? && k < |g.members|
    requires forall j :: k < j < |g.members| ==> DestPath(root, g.members[j].path) != DestPath(root, g.members[k].path)
    ensures DestPath(root, g.members[k].path) in ApplyGroup(fs, root, g).fs.files
    ensures ApplyGroup(fs, root, g).fs.files[DestPath(root, g.members[k].path)] == File(g.content, Some(g.members[k].meta))
  {
    var ts := Targets(root, g.members);
    LastMetaOwn(ts, k);
    GroupSharesContent(fs, root, g, ts[k].path);
  }

  /** Destinations of every member of every group. */
  function GroupTargets(root: string, gs: seq<Group>): set<string>
    requires ValidGroups(gs)
    decreases |gs|
  {
    if |gs| == 0 then {} else TargetPaths(Targets(root, gs[0].members)) + GroupTargets(root, gs[1..])
  }

  /** The groups in order, stopping at the first refused open. */
  function ApplyGroups(fs: FileSystem, root: string, gs: seq<Group>): (r: Outcome)
    requires ValidGroups(gs)
    ensures r.fs.dirs == fs.dirs
    ensures r.Aborted? ==> r.failure.OpenFailed?
    ensures r.Completed? ==> r.fs.files.Keys == fs.files.Keys + GroupTargets(root, gs)
    ensures r.Completed? ==> forall q :: q in fs.files && q !in GroupTargets(root, gs) ==> r.fs.files[q] == fs.files[q]
    ensures r.Completed? && Consistent(fs) ==> Consistent(r.fs)
    decreases |gs|
  {
    if |gs| == 0 then Completed(fs)
    else
      match ApplyGroup(fs, root, gs[0])
      case Aborted(fs1, e) => Aborted(fs1, e)
      case Completed(fs1) => ApplyGroups(fs1, root, gs[1..])
  }

  /** A member named by no later member of its own group or of any later group ends up
      holding its group's shared content and its own flags, date and time. */
  lemma {:induction false} GroupsLastWriterWins(fs: FileSystem, root: string, gs: seq<Group>, i: nat, k: nat)
    requires ValidGroups(gs) && i < |gs| && k < |gs[i].members|
    requires ApplyGroups(fs, root, gs).Completed?
    requires forall j :: k < j < |gs[i].members| ==>
      DestPath(root, gs[i].members[j].path) != DestPath(root, gs[i].members[k].path)
    requires forall j :: i < j < |gs| ==> DestPath(root, gs[i].members[k].path) !in TargetPaths(Targets(root, gs[j].members))
    ensures DestPath(root, gs[i].members[k].path) in ApplyGroups(fs, root, gs).fs.files
    ensures ApplyGroups(fs, root, gs).fs.files[DestPath(root, gs[i].members[k].path)]
      == File(gs[i].content, Some(gs[i].members[k].meta))
    decreases |gs|
  {
    var fs1 := ApplyGroup(fs, root, gs[0]).fs;
    var p := DestPath(root, gs[i].members[k].path);
    if i == 0 {
      var ts := Targets(root, gs[0].members);
      LastMetaOwn(ts, k);
      GroupSharesContent(fs, root, gs[0], p);
      NotInLaterGroups(root, gs, p);
    } else {
      assert gs[1..][i - 1] == gs[i];
      forall j | i - 1 < j < |gs[1..]|
        ensures p !in TargetPaths(Targets(root, gs[1..][j].members))
      {
        assert gs[1..][j] == gs[j + 1];
      }
      GroupsLastWriterWins(fs1, root, gs[1..], i - 1, k);
    }
  }

  /** A path named by no group after the first is not among the later groups' targets. */
  lemma {:induction false} NotInLaterGroups(root: string, gs: seq<Group>, p: string)
    requires ValidGroups(gs) && |gs| > 0
    requires forall j :: 0 < j < |gs| ==> p !in TargetPaths(Targets(root, gs[j].members))
    ensures p !in GroupTargets(root, gs[1..])
    decreases |gs|
  {
    if |gs| > 1 {
      var tail := gs[1..];
      assert tail[0] == gs[1];
      forall j | 0 < j < |tail| ensures p !in TargetPaths(Targets(root, tail[j].members)) {
        assert tail[j] == gs[j + 1];
      }
      NotInLaterGroups(root, tail, p);
    }
  }

  // ---------------------------------------------------------------- whole archive

  /** Extraction of a decoded archive: the directory pass, whose status is dropped, then
      the file records of its version. */
  function Apply(fs: FileSystem, root: string, a: Archive): (r: Outcome)
    requires ValidArchive(a)
    ensures r.Aborted? ==> r.failure.OpenFailed?
    ensures ApplyDirs(fs, root, a.dirs).fs.dirs == r.fs.dirs
    ensures r.Completed? && Consistent(fs) ==> Consistent(r.fs)
  {
    var d := ApplyDirs(fs, root, a.dirs);
    match a.files
    case V1Files(files) => ApplyV1Files(d.fs, root, files)
    case V2Groups(_, gs) => ApplyGroups(d.fs, root, gs)
  }
}
