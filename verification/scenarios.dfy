/** End-to-end consequences for the extractor `inst_copyFiles`: on any encoded archive it
    does what `Replay.Apply` describes, and a handful of situations the installer meets in
    practice, each stated for all inputs of that shape. */
module Scenarios {
  import opened Wire
  import opened MercyPak
  import opened Host
  import opened Archive
  import opened RoundTrip
  import opened Replay
  import opened Extract
  import opened Agreement

  /** The extractor run on an encoded archive, whatever follows it, is the replay of that
      archive. */
  lemma ExtractEncoded(a: Archive, t: bytes, root: string, fs: FileSystem)
    requires ValidArchive(a)
    ensures CopyFiles(Encode(a) + t, root, fs) == Apply(fs, root, a)
  {
    ParseEncoded(a, t);
    CopyFilesDecoded(Encode(a) + t, root, fs, a, t);
  }

  /** Fewer than 12 bytes: the header assertion fires before any filesystem call. */
  lemma ShortHeaderUntouched(s: bytes, root: string, fs: FileSystem)
    requires |s| < HEADER_SIZE
    ensures CopyFiles(s, root, fs) == Aborted(fs, ShortHeader)
  {
  }

  /** A magic other than "ZIEG" and "MRCY" stops the extractor before any directory or
      file is touched. */
  lemma BadMagicUntouched(s: bytes, root: string, fs: FileSystem)
    requires |s| >= HEADER_SIZE
    requires s[..MAGIC_SIZE] != V1_MAGIC_BYTES && s[..MAGIC_SIZE] != V2_MAGIC_BYTES
    ensures CopyFiles(s, root, fs) == Aborted(fs, BadMagic)
  {
  }

  /** A V2 group announcing more than 16 identical files stops the extractor at that group. */
  lemma TooManyIdenticalStops(fileCount: uint32, c: uint8, t: bytes, root: string, fs: FileSystem)
    requires fileCount > 0 && c > MAX_IDENTICAL_FILES
    ensures CopyFiles(EncodeHeader(Header(V2_MAGIC_BYTES, 0, fileCount)) + ([c] + t), root, fs)
         == Aborted(fs, TooManyIdentical(c))
  {
    var h := Header(V2_MAGIC_BYTES, 0, fileCount);
    ReadHeaderEncoded(h, [c] + t);
  }

  /** A record whose directory cannot be created does not fail an archive without files:
      the directory pass's status is discarded. */
  lemma FailedDirectoryStillCompletes(a: Archive, t: bytes, root: string, fs: FileSystem)
    requires |a.dirs| == 1 && ValidPath(a.dirs[0].path) && a.files == V1Files([])
    requires !Exists(fs, TrimSlashes(DestPath(root, a.dirs[0].path))) && Parent(DestPath(root, a.dirs[0].path)) !in fs.dirs
    ensures ValidArchive(a)
    ensures !MkDir(fs, DestPath(root, a.dirs[0].path)).ok
    ensures CopyFiles(Encode(a) + t, root, fs) == Completed(fs)
  {
    SingleDirValid(a);
    ExtractEncoded(a, t, root, fs);
    assert a.dirs == [a.dirs[0]] + [];
    ApplyDirsCons(fs, root, a.dirs[0], []);
  }

  lemma SingleDirValid(a: Archive)
    requires |a.dirs| == 1 && ValidPath(a.dirs[0].path) && a.files == V1Files([])
    ensures ValidArchive(a)
  {
  }

  /** A V1 record of size 0 still creates (or truncates) its file, leaving it empty. */
  lemma EmptyFileCreated(a: Archive, f: V1File, t: bytes, root: string, fs: FileSystem)
    requires a.dirs == [] && a.files == V1Files([f])
    requires ValidPath(f.path) && f.content == [] && Openable(fs, DestPath(root, f.path))
    ensures ValidArchive(a)
    ensures CopyFiles(Encode(a) + t, root, fs).Completed?
    ensures DestPath(root, f.path) in CopyFiles(Encode(a) + t, root, fs).fs.files
    ensures CopyFiles(Encode(a) + t, root, fs).fs.files[DestPath(root, f.path)] == File([], Some(f.meta))
  {
    var files := a.files.files;
    assert ValidV1Files(files);
    ExtractEncoded(a, t, root, fs);
    ApplyV1FilesCons(fs, root, files);
  }

  /** A V1 record whose stored path is empty as a C string makes the installer open the
      install directory itself with a trailing '/', which fails, so extraction stops there. */
  lemma EmptyNameAborts(a: Archive, f: V1File, t: bytes, root: string, fs: FileSystem)
    requires a.dirs == [] && a.files == V1Files([f])
    requires ValidV1File(f) && CString(f.path) == []
    ensures ValidArchive(a)
    ensures CopyFiles(Encode(a) + t, root, fs) == Aborted(fs, OpenFailed(root + "/"))
  {
    var files := a.files.files;
    assert ValidV1Files(files);
    ExtractEncoded(a, t, root, fs);
    assert DestPath(root, f.path) == root + "/";
    assert files[1..] == [];
  }

  /** Two members of one V2 group receive the same stored bytes, each with its own DOS
      metadata. */
  lemma GroupMembersShare(a: Archive, g: Group, t: bytes, root: string, fs: FileSystem)
    requires a.dirs == [] && a.files == V2Groups(2, [g]) && ValidGroup(g) && |g.members| == 2
    requires DestPath(root, g.members[0].path) != DestPath(root, g.members[1].path)
    requires Openable(fs, DestPath(root, g.members[0].path)) && Openable(fs, DestPath(root, g.members[1].path))
    ensures ValidArchive(a)
    ensures CopyFiles(Encode(a) + t, root, fs).Completed?
    ensures DestPath(root, g.members[0].path) in CopyFiles(Encode(a) + t, root, fs).fs.files
    ensures DestPath(root, g.members[1].path) in CopyFiles(Encode(a) + t, root, fs).fs.files
    ensures CopyFiles(Encode(a) + t, root, fs).fs.files[DestPath(root, g.members[0].path)]
         == File(g.content, Some(g.members[0].meta))
    ensures CopyFiles(Encode(a) + t, root, fs).fs.files[DestPath(root, g.members[1].path)]
         == File(g.content, Some(g.members[1].meta))
  {
    SingleGroupExtract(a, g, t, root, fs);
    PairGroup(fs, root, g);
  }

  /** An archive of one V2 group and nothing else extracts as that group alone. */
  lemma SingleGroupExtract(a: Archive, g: Group, t: bytes, root: string, fs: FileSystem)
    requires ValidGroup(g) && |g.members| > 0 && a.dirs == [] && a.files == V2Groups(|g.members|, [g])
    ensures ValidArchive(a)
    ensures CopyFiles(Encode(a) + t, root, fs) == ApplyGroup(fs, root, g)
  {
    var gs := a.files.groups;
    assert GroupsFit(gs, 0, a.files.fileCount) by {
      assert NextFileIndex(0, |g.members|) == |g.members|;
      assert gs[1..] == [];
    }
    ExtractEncoded(a, t, root, fs);
    ApplyGroupsSingle(fs, root, gs);
  }

  /** A group of two members naming different paths that can both be opened. */
  lemma PairGroup(fs: FileSystem, root: string, g: Group)
    requires ValidGroup(g) && |g.members| == 2
    requires DestPath(root, g.members[0].path) != DestPath(root, g.members[1].path)
    requires Openable(fs, DestPath(root, g.members[0].path)) && Openable(fs, DestPath(root, g.members[1].path))
    ensures ApplyGroup(fs, root, g).Completed?
    ensures DestPath(root, g.members[0].path) in ApplyGroup(fs, root, g).fs.files
    ensures DestPath(root, g.members[1].path) in ApplyGroup(fs, root, g).fs.files
    ensures ApplyGroup(fs, root, g).fs.files[DestPath(root, g.members[0].path)] == File(g.content, Some(g.members[0].meta))
    ensures ApplyGroup(fs, root, g).fs.files[DestPath(root, g.members[1].path)] == File(g.content, Some(g.members[1].meta))
  {
    PairCompletes(fs, root, g);
    PairFirst(fs, root, g);
    GroupMemberOwnMeta(fs, root, g, 1);
  }

  lemma PairFirst(fs: FileSystem, root: string, g: Group)
    requires ValidGroup(g) && |g.members| == 2 && ApplyGroup(fs, root, g).Completed?
    requires DestPath(root, g.members[0].path) != DestPath(root, g.members[1].path)
    ensures DestPath(root, g.members[0].path) in ApplyGroup(fs, root, g).fs.files
    ensures ApplyGroup(fs, root, g).fs.files[DestPath(root, g.members[0].path)] == File(g.content, Some(g.members[0].meta))
  {
    PairLaterDistinct(root, g);
    GroupMemberOwnMeta(fs, root, g, 0);
  }

  lemma PairLaterDistinct(root: string, g: Group)
    requires ValidGroup(g) && |g.members| == 2
    requires DestPath(root, g.members[0].path) != DestPath(root, g.members[1].path)
    ensures forall j :: 0 < j < |g.members| ==> DestPath(root, g.members[j].path) != DestPath(root, g.members[0].path)
  {
    forall j | 0 < j < |g.members| ensures DestPath(root, g.members[j].path) != DestPath(root, g.members[0].path) {
      assert j == 1;
    }
  }

  lemma PairCompletes(fs: FileSystem, root: string, g: Group)
    requires ValidGroup(g) && |g.members| == 2
    requires Openable(fs, DestPath(root, g.members[0].path)) && Openable(fs, DestPath(root, g.members[1].path))
    ensures ApplyGroup(fs, root, g).Completed?
  {
    forall i | 0 <= i < |g.members| ensures Openable(fs, DestPath(root, g.members[i].path)) {
      assert i == 0 || i == 1;
    }
    ApplyGroupCompletes(fs, root, g);
  }

  lemma ApplyGroupsSingle(fs: FileSystem, root: string, gs: seq<Group>)
    requires |gs| == 1 && ValidGroups(gs)
    ensures ApplyGroups(fs, root, gs) == ApplyGroup(fs, root, gs[0])
  {
    assert gs[1..] == [];
  }
}
