/** The extractor is the decoder followed by the replay: whenever the archive decodes,
    `inst_copyFiles` as modelled in `Extract` leaves exactly the filesystem `Replay.Apply`
    describes, and whenever it does not, the extractor stops with the decoder's failure
    or with an open that failed before the decoder's failure point was reached.

    The extractor interleaves reading with filesystem calls (a V1 file is opened before its
    content is read, a V2 member before its descriptor is read); these lemmas show that on
    a well-formed archive the interleaving changes nothing. */
module Agreement {
  import opened Wire
  import opened MercyPak
  import opened Host
  import opened Archive
  import opened RoundTrip
  import opened Replay
  import opened Extract

  // ---------------------------------------------------------------- directory pass

  /** Equal counts, equal results: the bridge from `k` to `n - 1` in inductive proofs,
      as for the decoder's `...Count` lemmas. */
  lemma DirPassCount(s: bytes, root: string, fs: FileSystem, a: nat, b: nat)
    requires a == b
    ensures DirPass(s, root, fs, a) == DirPass(s, root, fs, b)
  {
  }

  /** On decodable directory records the directory loop is `ApplyDirs`. */
  lemma {:induction false} DirPassDecoded(s: bytes, root: string, fs: FileSystem, n: nat, ds: seq<DirRecord>, rest: bytes)
    requires ParseDirs(s, n) == Decoded(ds, rest)
    ensures ValidDirs(ds)
    ensures DirPass(s, root, fs, n) == DirsDone(rest, ApplyDirs(fs, root, ds).fs, ApplyDirs(fs, root, ds).ok)
    decreases n
  {
    if n > 0 {
      var d, s1, ds1 := ParseDirsStep(s, n, ds, rest);
      var k := n - 1;
      ParseDirsCount(s1, k, n - 1);
      var m := MkDir(fs, DestPath(root, d.path));
      DirPassDecoded(s1, root, m.fs, k, ds1, rest);
      DirPassCount(s1, root, m.fs, k, n - 1);
      DirPassCons(s, root, fs, n, d, s1);
      ApplyDirsCons(fs, root, d, ds1);
    }
  }

  /** One step of the directory loop: the mkdir of the record read, then the rest. */
  lemma DirPassCons(s: bytes, root: string, fs: FileSystem, n: nat, d: DirRecord, s1: bytes)
    requires n > 0 && ReadDirRecord(s) == Got(d, s1)
    ensures var m := MkDir(fs, DestPath(root, d.path));
      var r := DirPass(s1, root, m.fs, n - 1);
      DirPass(s, root, fs, n) == if r.DirsTruncated? then r else DirsDone(r.rest, r.fs, m.ok && r.ok)
  {
  }

  /** Directory records cut short: the loop stops, as the decoder does. */
  lemma {:induction false} DirPassFailed(s: bytes, root: string, fs: FileSystem, n: nat)
    requires ParseDirs(s, n).Failed?
    ensures DirPass(s, root, fs, n).DirsTruncated?
    decreases n
  {
    match ReadDirRecord(s)
    case Short =>
    case Got(d, s1) =>
      var k := n - 1;
      ParseDirsCount(s1, k, n - 1);
      var m := MkDir(fs, DestPath(root, d.path));
      DirPassFailed(s1, root, m.fs, k);
      DirPassCount(s1, root, m.fs, k, n - 1);
  }

  // ---------------------------------------------------------------- V1 pass

  /** Equal counts, equal results: the bridge from `k` to `n - 1` in inductive proofs,
      as for the decoder's `...Count` lemmas. */
  lemma V1PassCount(s: bytes, root: string, fs: FileSystem, a: nat, b: nat)
    requires a == b
    ensures V1Pass(s, root, fs, a) == V1Pass(s, root, fs, b)
  {
  }

  /** The three reads of one decoded V1 record. */
  lemma ParseV1FileParts(s: bytes, f: V1File, s3: bytes) returns (s1: bytes, d: V1Descriptor, s2: bytes)
    requires ParseV1File(s) == Decoded(f, s3)
    ensures ReadString(s) == Got(f.path, s1) && ReadV1Descriptor(s1) == Got(d, s2)
    ensures d.meta == f.meta && ReadBytes(s2, d.size) == Got(f.content, s3)
  {
    s1 := ReadString(s).rest;
    d, s2 := ReadV1Descriptor(s1).value, ReadV1Descriptor(s1).rest;
  }

  /** One step of the V1 loop over a decodable record is `ApplyV1File`. */
  lemma V1PassCons(s: bytes, root: string, fs: FileSystem, n: nat, f: V1File, s3: bytes)
    requires n > 0 && ParseV1File(s) == Decoded(f, s3) && ValidV1File(f)
    ensures var r := ApplyV1File(fs, root, f);
      V1Pass(s, root, fs, n) == if r.Aborted? then r else V1Pass(s3, root, r.fs, n - 1)
  {
    var s1, d, s2 := ParseV1FileParts(s, f, s3);
  }

  /** On decodable V1 records the V1 loop is `ApplyV1Files`. */
  lemma {:induction false} V1PassDecoded(s: bytes, root: string, fs: FileSystem, n: nat, files: seq<V1File>, rest: bytes)
    requires ParseV1Files(s, n) == Decoded(files, rest)
    ensures ValidV1Files(files)
    ensures V1Pass(s, root, fs, n) == ApplyV1Files(fs, root, files)
    decreases n
  {
    if n > 0 {
      var f, s1, files1 := ParseV1FilesStep(s, n, files, rest);
      var k := n - 1;
      ParseV1FilesCount(s1, k, n - 1);
      var r := ApplyV1File(fs, root, f);
      V1PassDecoded(s1, root, r.fs, k, files1, rest);
      V1PassCount(s1, root, r.fs, k, n - 1);
      V1PassCons(s, root, fs, n, f, s1);
      ApplyV1FilesUnfold(fs, root, f, files1);
    }
  }

  /** A V1 record that does not decode: the loop stops at it with a short read, like the
      decoder, unless its open failed first. */
  lemma V1RecordFailed(s: bytes, root: string, fs: FileSystem, n: nat)
    requires n > 0 && ParseV1File(s).Failed?
    ensures V1Pass(s, root, fs, n).Aborted?
    ensures V1Pass(s, root, fs, n).failure == ShortRead || V1Pass(s, root, fs, n).failure.OpenFailed?
  {
  }

  /** V1 records cut short: the loop stops with a short read, like the decoder, unless an
      open failed first. */
  lemma {:induction false} V1PassFailed(s: bytes, root: string, fs: FileSystem, n: nat)
    requires ParseV1Files(s, n).Failed?
    ensures V1Pass(s, root, fs, n).Aborted?
    ensures V1Pass(s, root, fs, n).failure == ShortRead || V1Pass(s, root, fs, n).failure.OpenFailed?
    decreases n
  {
    match ParseV1File(s)
    case Failed(_) =>
      V1RecordFailed(s, root, fs, n);
    case Decoded(f, s1) =>
      ParseV1FileCanonical(s);
      var k := n - 1;
      ParseV1FilesCount(s1, k, n - 1);
      V1PassCons(s, root, fs, n, f, s1);
      match ApplyV1File(fs, root, f)
      case Aborted(_, _) =>
      case Completed(fs1) =>
        V1PassFailed(s1, root, fs1, k);
        V1PassCount(s1, root, fs1, k, n - 1);
  }

  // ---------------------------------------------------------------- V2 members

  /** Equal counts, equal results: the bridge from `k` to `n - 1` in inductive proofs,
      as for the decoder's `...Count` lemmas. */
  lemma OpenMembersCount(s: bytes, root: string, fs: FileSystem, a: nat, b: nat)
    requires a == b
    ensures OpenMembers(s, root, fs, a) == OpenMembers(s, root, fs, b)
  {
  }

  /** What the member loop returns when the opens go as `OpenAll` says. */
  function Opened(r: OpenAllResult, ts: seq<Target>, rest: bytes): MembersResult
  {
    match r
    case AllOpened(fs1) => MembersOpened(ts, rest, fs1)
    case OpenRefused(fs1, p) => MembersAborted(fs1, OpenFailed(p))
  }

  /** One step of the member loop over a decodable member. */
  lemma OpenMembersCons(s: bytes, root: string, fs: FileSystem, n: nat, m: Member, s1: bytes)
    requires n > 0 && ReadMember(s) == Got(m, s1)
    ensures ValidPath(m.path)
    ensures var path := DestPath(root, m.path);
      var o := Open(fs, path);
      OpenMembers(s, root, fs, n) ==
        if o.None? then MembersAborted(fs, OpenFailed(path))
        else
          var r := OpenMembers(s1, root, o.value, n - 1);
          if r.MembersAborted? then r else MembersOpened([Target(path, m.meta)] + r.targets, r.rest, r.fs)
  {
  }

  /** `Opened` over `OpenAll` takes one target at a time, as the member loop does. */
  lemma OpenedCons(fs: FileSystem, root: string, m: Member, ms1: seq<Member>, rest: bytes)
    requires ValidPath(m.path) && ValidMembers(ms1)
    ensures ValidMembers([m] + ms1)
    ensures var path := DestPath(root, m.path);
      var o := Open(fs, path);
      Opened(OpenAll(fs, Targets(root, [m] + ms1)), Targets(root, [m] + ms1), rest) ==
        if o.None? then MembersAborted(fs, OpenFailed(path))
        else
          var r := Opened(OpenAll(o.value, Targets(root, ms1)), Targets(root, ms1), rest);
          if r.MembersAborted? then r else MembersOpened([Target(path, m.meta)] + r.targets, r.rest, r.fs)
  {
    var ms := [m] + ms1;
    assert ms[0] == m && ms[1..] == ms1;
    var ts := Targets(root, ms);
    assert ts[1..] == Targets(root, ms1);
  }

  /** On decodable members the member loop opens exactly the targets `OpenAll` opens. */
  lemma {:induction false} OpenMembersDecoded(s: bytes, root: string, fs: FileSystem, n: nat, ms: seq<Member>, rest: bytes)
    requires ParseMembers(s, n) == Decoded(ms, rest)
    ensures ValidMembers(ms)
    ensures OpenMembers(s, root, fs, n) == Opened(OpenAll(fs, Targets(root, ms)), Targets(root, ms), rest)
    decreases n
  {
    ParseMembersCanonical(s, n, ms, rest);
    if n > 0 {
      var m, s1, ms1 := ParseMembersStep(s, n, ms, rest);
      var k := n - 1;
      ParseMembersCount(s1, k, n - 1);
      OpenMembersCons(s, root, fs, n, m, s1);
      ParseMembersCanonical(s1, k, ms1, rest);
      OpenedCons(fs, root, m, ms1, rest);
      var o := Open(fs, DestPath(root, m.path));
      if o.Some? {
        OpenMembersDecoded(s1, root, o.value, k, ms1, rest);
        OpenMembersCount(s1, root, o.value, k, n - 1);
      }
    }
  }

  /** Members cut short: the member loop stops with a short read, like the decoder, unless
      an open failed first. */
  lemma {:induction false} OpenMembersFailed(s: bytes, root: string, fs: FileSystem, n: nat)
    requires ParseMembers(s, n).Failed?
    ensures OpenMembers(s, root, fs, n).MembersAborted?
    ensures OpenMembers(s, root, fs, n).failure == ShortRead || OpenMembers(s, root, fs, n).failure.OpenFailed?
    decreases n
  {
    match ReadMember(s)
    case Short =>
    case Got(m, s1) =>
      var k := n - 1;
      ParseMembersCount(s1, k, n - 1);
      OpenMembersCons(s, root, fs, n, m, s1);
      match Open(fs, DestPath(root, m.path))
      case None =>
      case Some(fs1) =>
        OpenMembersFailed(s1, root, fs1, k);
        OpenMembersCount(s1, root, fs1, k, n - 1);
  }

  // ---------------------------------------------------------------- V2 pass

  /** One step of the V2 loop over a decodable group is `ApplyGroup`. */
  lemma V2PassCons(s: bytes, root: string, fs: FileSystem, f: uint32, n: uint32, g: Group, s1: bytes)
    requires f < n && ParseGroup(s) == Decoded(g, s1)
    ensures ValidGroup(g)
    ensures var r := ApplyGroup(fs, root, g);
      V2Pass(s, root, fs, f, n) == if r.Aborted? then r else V2Pass(s1, root, r.fs, NextFileIndex(f, |g.members|), n)
  {
    ParseGroupCanonical(s, g, s1);
    var c, sA, sB, z, sC := ParseGroupStep(s, g, s1);
    OpenMembersDecoded(sA, root, fs, c, g.members, sB);
  }

  /** On decodable groups the V2 loop is `ApplyGroups`. */
  lemma {:induction false} V2PassDecoded(s: bytes, root: string, fs: FileSystem, f: uint32, n: uint32,
                                         gs: seq<Group>, rest: bytes)
    requires ParseGroups(s, f, n) == Decoded(gs, rest)
    ensures ValidGroups(gs)
    ensures V2Pass(s, root, fs, f, n) == ApplyGroups(fs, root, gs)
    decreases |s|
  {
    ParseGroupsCanonical(s, f, n, gs, rest);
    if f < n {
      var g, s1, gs1, next := ParseGroupsStep(s, f, n, gs, rest);
      V2PassCons(s, root, fs, f, n, g, s1);
      assert gs[0] == g && gs[1..] == gs1;
      match ApplyGroup(fs, root, g)
      case Aborted(_, _) =>
      case Completed(fs1) =>
        V2PassDecoded(s1, root, fs1, next, n, gs1, rest);
    }
  }

  /** A group that does not decode stops the V2 loop at that group with the decoder's
      failure, unless one of its opens failed first. */
  lemma V2GroupFailed(s: bytes, root: string, fs: FileSystem, f: uint32, n: uint32)
    requires f < n && ParseGroup(s).Failed?
    ensures V2Pass(s, root, fs, f, n).Aborted?
    ensures V2Pass(s, root, fs, f, n).failure == ParseGroup(s).failure || V2Pass(s, root, fs, f, n).failure.OpenFailed?
  {
    match ReadU8(s)
    case Short =>
    case Got(c, s1) =>
      if c <= MAX_IDENTICAL_FILES {
        match ParseMembers(s1, c)
        case Failed(_) =>
          OpenMembersFailed(s1, root, fs, c);
        case Decoded(ms, s2) =>
          OpenMembersDecoded(s1, root, fs, c, ms, s2);
      }
  }

  /** Groups that do not decode: the V2 loop stops with the decoder's failure, unless an
      open failed first. */
  lemma {:induction false} V2PassFailed(s: bytes, root: string, fs: FileSystem, f: uint32, n: uint32)
    requires ParseGroups(s, f, n).Failed?
    ensures V2Pass(s, root, fs, f, n).Aborted?
    ensures V2Pass(s, root, fs, f, n).failure == ParseGroups(s, f, n).failure || V2Pass(s, root, fs, f, n).failure.OpenFailed?
    decreases |s|
  {
    match ParseGroup(s)
    case Failed(_) =>
      V2GroupFailed(s, root, fs, f, n);
    case Decoded(g, s1) =>
      V2PassCons(s, root, fs, f, n, g, s1);
      match ApplyGroup(fs, root, g)
      case Aborted(_, _) =>
      case Completed(fs1) =>
        V2PassFailed(s1, root, fs1, NextFileIndex(f, |g.members|), n);
  }

  // ---------------------------------------------------------------- whole extraction

  /** On a decodable archive the extractor is the decoder followed by `Apply`. */
  lemma CopyFilesDecoded(s: bytes, root: string, fs: FileSystem, a: Archive, rest: bytes)
    requires Parse(s) == Decoded(a, rest)
    ensures ValidArchive(a)
    ensures CopyFiles(s, root, fs) == Apply(fs, root, a)
  {
    ParseCanonical(s, a, rest);
    var h, s1, v, s2 := ParseStep(s, a, rest);
    DirPassDecoded(s1, root, fs, h.dirCount, a.dirs, s2);
    var fs1 := ApplyDirs(fs, root, a.dirs).fs;
    FilePassDecoded(v, s2, root, fs1, h.fileCount, a.files, rest);
  }

  /** On decodable file records the file pass replays them. */
  lemma FilePassDecoded(v: Version, s: bytes, root: string, fs: FileSystem, fileCount: uint32, files: Files, rest: bytes)
    requires ParseFiles(v, s, fileCount) == Decoded(files, rest)
    ensures files.V1Files? ==> ValidV1Files(files.files) && FilePass(v, s, root, fs, fileCount) == ApplyV1Files(fs, root, files.files)
    ensures files.V2Groups? ==> ValidGroups(files.groups) && FilePass(v, s, root, fs, fileCount) == ApplyGroups(fs, root, files.groups)
  {
    match v
    case V1 =>
      V1PassDecoded(s, root, fs, fileCount, files.files, rest);
    case V2 =>
      V2PassDecoded(s, root, fs, 0, fileCount, files.groups, rest);
  }

  /** File records that do not decode: the file pass stops with the decoder's failure,
      unless an open failed first. */
  lemma FilePassFailed(v: Version, s: bytes, root: string, fs: FileSystem, fileCount: uint32)
    requires ParseFiles(v, s, fileCount).Failed?
    ensures FilePass(v, s, root, fs, fileCount).Aborted?
    ensures FilePass(v, s, root, fs, fileCount).failure == ParseFiles(v, s, fileCount).failure
      || FilePass(v, s, root, fs, fileCount).failure.OpenFailed?
    ensures ParseFiles(v, s, fileCount).failure == ShortRead || ParseFiles(v, s, fileCount).failure.TooManyIdentical?
  {
    match v
    case V1 =>
      V1PassFailed(s, root, fs, fileCount);
      ParseV1FilesFailure(s, fileCount);
    case V2 => V2PassFailed(s, root, fs, 0, fileCount);
  }

  /** Past a good header, the extractor stops with the decoder's failure, unless an open
      failed first. */
  lemma CopyFilesBodyFailed(s: bytes, root: string, fs: FileSystem, h: Header, s1: bytes, v: Version)
    requires ReadHeader(s) == Got(h, s1) && MagicVersion(h.magic) == Some(v) && Parse(s).Failed?
    ensures CopyFiles(s, root, fs).Aborted?
    ensures CopyFiles(s, root, fs).failure == Parse(s).failure || CopyFiles(s, root, fs).failure.OpenFailed?
    ensures Parse(s).failure == ShortRead || Parse(s).failure.TooManyIdentical?
  {
    match ParseDirs(s1, h.dirCount)
    case Failed(_) =>
      DirPassFailed(s1, root, fs, h.dirCount);
    case Decoded(ds, s2) =>
      DirPassDecoded(s1, root, fs, h.dirCount, ds, s2);
      FilePassFailed(v, s2, root, ApplyDirs(fs, root, ds).fs, h.fileCount);
  }

  /** On an archive that does not decode the extractor stops with the decoder's failure,
      unless an open failed first; a short header or an unknown magic stops it before any
      filesystem call. */
  lemma CopyFilesFailed(s: bytes, root: string, fs: FileSystem)
    requires Parse(s).Failed?
    ensures CopyFiles(s, root, fs).Aborted?
    ensures CopyFiles(s, root, fs).failure == Parse(s).failure || CopyFiles(s, root, fs).failure.OpenFailed?
    ensures Parse(s).failure in {ShortHeader, BadMagic} ==> CopyFiles(s, root, fs) == Aborted(fs, Parse(s).failure)
  {
    match ReadHeader(s)
    case Short =>
    case Got(h, s1) =>
      match MagicVersion(h.magic)
      case None =>
      case Some(v) =>
        CopyFilesBodyFailed(s, root, fs, h, s1, v);
  }
}
