/** The extractor `inst_copyFiles`: one forward pass over the archive that creates the
    directories and then writes the files as it reads them, interleaving reads with the
    filesystem calls in the order the installer makes them.

    Every installer assertion (short header, unknown magic, more than 16 identical files,
    a failed open) and every short read stops the pass with `Aborted`, keeping the
    filesystem as it was at that point. `Completed` is the installer returning true. */
module Extract {
  import opened Wire
  import opened MercyPak
  import opened Host

  datatype DirPassResult =
    | DirsTruncated(fs: FileSystem)
    | DirsDone(rest: bytes, fs: FileSystem, ok: bool)

  /** The directory loop: `remaining` entries, each a mode byte and a path, each followed by
      a mkdir whose failure (other than "already exists") is remembered but does not stop. */
  function DirPass(s: bytes, root: string, fs: FileSystem, remaining: nat): (r: DirPassResult)
    ensures r.DirsDone? ==> |r.rest| <= |s|
    ensures r.fs.files == fs.files && fs.dirs <= r.fs.dirs
    decreases remaining
  {
    if remaining == 0 then DirsDone(s, fs, true)
    else
      match ReadDirRecord(s)
      case Short => DirsTruncated(fs)
      case Got(d, s1) =>
        var m := MkDir(fs, DestPath(root, d.path));
        match DirPass(s1, root, m.fs, remaining - 1)
        case DirsTruncated(fs2) => DirsTruncated(fs2)
        case DirsDone(s2, fs2, ok) => DirsDone(s2, fs2, m.ok && ok)
  }

  /** The V1 loop: `remaining` records of path, 9-byte descriptor and content. The
      destination is opened after the descriptor is read and before the content is copied. */
  function V1Pass(s: bytes, root: string, fs: FileSystem, remaining: nat): (r: Outcome)
    ensures r.fs.dirs == fs.dirs && fs.files.Keys <= r.fs.files.Keys
    ensures r.Aborted? ==> r.failure == ShortRead || r.failure.OpenFailed?
    decreases remaining
  {
    if remaining == 0 then Completed(fs)
    else
      match ReadString(s)
      case Short => Aborted(fs, ShortRead)
      case Got(raw, s1) =>
        var path := DestPath(root, raw);
        match ReadV1Descriptor(s1)
        case Short => Aborted(fs, ShortRead)
        case Got(d, s2) =>
          match Open(fs, path)
          case None => Aborted(fs, OpenFailed(path))
          case Some(fs1) =>
            match ReadBytes(s2, d.size)
            case Short => Aborted(fs1, ShortRead)
            case Got(content, s3) =>
              V1Pass(s3, root, Stamp(Write(fs1, path, content), path, d.meta), remaining - 1)
  }

  datatype MembersResult =
    | MembersAborted(fs: FileSystem, failure: Failure)
    | MembersOpened(targets: seq<Target>, rest: bytes, fs: FileSystem)

  /** The inner V2 loop: for each of `count` members, read its path, open it, then read
      its 5-byte descriptor. */
  function OpenMembers(s: bytes, root: string, fs: FileSystem, count: nat): (r: MembersResult)
    ensures r.MembersOpened? ==> |r.rest| <= |s| && |r.targets| == count
    ensures r.MembersOpened? ==> r.fs.dirs == fs.dirs && r.fs.files.Keys == fs.files.Keys + TargetPaths(r.targets)
    ensures r.MembersAborted? ==> r.fs.dirs == fs.dirs && fs.files.Keys <= r.fs.files.Keys
    ensures r.MembersAborted? ==> (r.failure == ShortRead || r.failure.OpenFailed?)
    decreases count
  {
    if count == 0 then MembersOpened([], s, fs)
    else
      match ReadString(s)
      case Short => MembersAborted(fs, ShortRead)
      case Got(raw, s1) =>
        var path := DestPath(root, raw);
        match Open(fs, path)
        case None => MembersAborted(fs, OpenFailed(path))
        case Some(fs1) =>
          match ReadMeta(s1)
          case Short => MembersAborted(fs1, ShortRead)
          case Got(meta, s2) =>
            match OpenMembers(s2, root, fs1, count - 1)
            case MembersAborted(fs2, e) => MembersAborted(fs2, e)
            case MembersOpened(ts, s3, fs2) =>
              TargetPathsCons(Target(path, meta), ts);
              MembersOpened([Target(path, meta)] + ts, s3, fs2)
  }

  /** The V2 loop: groups of up to 16 members sharing one content run, until the 32-bit
      file counter `f` reaches `fileCount`. A group of 0 members is accepted and leaves `f`
      where it is; the loop still ends because every group consumes at least 5 bytes. */
  function V2Pass(s: bytes, root: string, fs: FileSystem, f: uint32, fileCount: uint32): (r: Outcome)
    ensures r.fs.dirs == fs.dirs && fs.files.Keys <= r.fs.files.Keys
    ensures r.Aborted? ==>
      (r.failure == ShortRead || r.failure.OpenFailed?
       || (r.failure.TooManyIdentical? && r.failure.count > MAX_IDENTICAL_FILES))
    decreases |s|
  {
    if f >= fileCount then Completed(fs)
    else
      match ReadU8(s)
      case Short => Aborted(fs, ShortRead)
      case Got(count, s1) =>
        if count > MAX_IDENTICAL_FILES then Aborted(fs, TooManyIdentical(count))
        else
          match OpenMembers(s1, root, fs, count)
          case MembersAborted(fs1, e) => Aborted(fs1, e)
          case MembersOpened(ts, s2, fs1) =>
            match ReadU32(s2)
            case Short => Aborted(fs1, ShortRead)
            case Got(size, s3) =>
              match ReadBytes(s3, size)
              case Short => Aborted(fs1, ShortRead)
              case Got(content, s4) =>
                V2Pass(s4, root, StampAll(WriteAll(fs1, ts, content), ts), NextFileIndex(f, count), fileCount)
  }

  /** The file loop of the version the magic selected. It never creates a directory, and
      it stops only at a short read, a failed open or (for V2) a group of more than 16. */
  function FilePass(v: Version, s: bytes, root: string, fs: FileSystem, fileCount: uint32): (r: Outcome)
    ensures r.fs.dirs == fs.dirs && fs.files.Keys <= r.fs.files.Keys
    ensures r.Aborted? ==>
      (r.failure == ShortRead || r.failure.OpenFailed?
       || (v == V2 && r.failure.TooManyIdentical? && r.failure.count > MAX_IDENTICAL_FILES))
  {
    match v
    case V1 => V1Pass(s, root, fs, fileCount)
    case V2 => V2Pass(s, root, fs, 0, fileCount)
  }

  /** The whole extraction of one archive into the tree rooted at `root`. The directory
      pass's status is dropped: only the file pass decides the result. */
  function CopyFiles(data: bytes, root: string, fs: FileSystem): (r: Outcome)
    ensures r.Aborted? && r.failure == ShortHeader <==> |data| < HEADER_SIZE
    ensures r.Aborted? && r.failure == BadMagic <==>
      |data| >= HEADER_SIZE && data[..MAGIC_SIZE] != V1_MAGIC_BYTES && data[..MAGIC_SIZE] != V2_MAGIC_BYTES
    ensures r.Aborted? && (r.failure == ShortHeader || r.failure == BadMagic) ==> r.fs == fs
    ensures fs.dirs <= r.fs.dirs && fs.files.Keys <= r.fs.files.Keys
  {
    match ReadHeader(data)
    case Short => Aborted(fs, ShortHeader)
    case Got(h, s1) =>
      match MagicVersion(h.magic)
      case None => Aborted(fs, BadMagic)
      case Some(v) =>
        match DirPass(s1, root, fs, h.dirCount)
        case DirsTruncated(fs1) => Aborted(fs1, ShortRead)
        case DirsDone(s2, fs1, _) => FilePass(v, s2, root, fs1, h.fileCount)
  }
}
