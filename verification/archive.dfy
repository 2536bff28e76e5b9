/** A MercyPak archive as a value: the directory records and either the V1 file records
    or the V2 groups, with the encoder that lays them out on the wire and a decoder that
    reads them back without touching any filesystem.

    The decoder follows the extractor's reading order and stopping rules exactly; the
    extractor is proved to be this decoder followed by `Replay.Apply`. */
module Archive {
  import opened Wire
  import opened MercyPak

  datatype Member = Member(path: bytes, meta: DosMeta)
  datatype V1File = V1File(path: bytes, meta: DosMeta, content: bytes)
  /** Up to 16 files with identical content stored once. */
  datatype Group = Group(members: seq<Member>, content: bytes)

  /** V1 stores one record per file; V2 stores groups until the header's file count is
      reached, so the count is kept alongside them. */
  datatype Files = V1Files(files: seq<V1File>) | V2Groups(fileCount: uint32, groups: seq<Group>)

  datatype Archive = Archive(dirs: seq<DirRecord>, files: Files)

  datatype Decoded<+T> = Failed(failure: Failure) | Decoded(value: T, rest: bytes)

  predicate ValidPath(p: bytes)
  {
    |p| < STRING_AREA
  }

  predicate ValidDirs(ds: seq<DirRecord>)
  {
    forall i :: 0 <= i < |ds| ==> ValidPath(ds[i].path)
  }

  predicate ValidV1File(f: V1File)
  {
    ValidPath(f.path) && |f.content| < UINT32_LIMIT
  }

  predicate ValidV1Files(fs: seq<V1File>)
  {
    forall i :: 0 <= i < |fs| ==> ValidV1File(fs[i])
  }

  predicate ValidMembers(ms: seq<Member>)
  {
    forall i :: 0 <= i < |ms| ==> ValidPath(ms[i].path)
  }

  predicate ValidGroup(g: Group)
  {
    |g.members| <= MAX_IDENTICAL_FILES && ValidMembers(g.members) && |g.content| < UINT32_LIMIT
  }

  predicate ValidGroups(gs: seq<Group>)
  {
    forall i :: 0 <= i < |gs| ==> ValidGroup(gs[i])
  }

  /** The groups are exactly those the V2 loop reads when its 32-bit counter starts at `f`:
      the counter is below `fileCount` before each group and has reached it after the last. */
  predicate GroupsFit(gs: seq<Group>, f: uint32, fileCount: uint32)
  {
    if |gs| == 0 then f >= fileCount
    else
      && f < fileCount
      && |gs[0].members| <= MAX_IDENTICAL_FILES
      && GroupsFit(gs[1..], NextFileIndex(f, |gs[0].members|), fileCount)
  }

  /** Number of files the groups describe, members counted with repetitions. */
  function MemberCount(gs: seq<Group>): nat
  {
    if |gs| == 0 then 0 else |gs[0].members| + MemberCount(gs[1..])
  }

  /** Without wrap-around of the 32-bit counter, the groups read from counter `f` describe
      at least the `fileCount - f` files the header announces, and overshoot by less than
      one full group. */
  lemma {:induction false} GroupsFitCount(gs: seq<Group>, f: uint32, fileCount: uint32)
    requires GroupsFit(gs, f, fileCount) && f + MemberCount(gs) < UINT32_LIMIT
    ensures f + MemberCount(gs) >= fileCount
    ensures |gs| > 0 ==> f + MemberCount(gs) < fileCount + MAX_IDENTICAL_FILES
    decreases |gs|
  {
    if |gs| > 0 {
      var next := NextFileIndex(f, |gs[0].members|);
      assert next == f + |gs[0].members|;
      GroupsFitCount(gs[1..], next, fileCount);
    }
  }

  predicate ValidArchive(a: Archive)
  {
    && |a.dirs| < UINT32_LIMIT
    && ValidDirs(a.dirs)
    && match a.files
       case V1Files(fs) => |fs| < UINT32_LIMIT && ValidV1Files(fs)
       case V2Groups(n, gs) => ValidGroups(gs) && GroupsFit(gs, 0, n)
  }

  // ---------------------------------------------------------------- encoder

  function EncodeDirs(ds: seq<DirRecord>): bytes
    requires ValidDirs(ds)
  {
    if |ds| == 0 then [] else EncodeDirRecord(ds[0]) + EncodeDirs(ds[1..])
  }

  function EncodeV1File(f: V1File): bytes
    requires ValidV1File(f)
  {
    EncodeString(f.path) + EncodeV1Descriptor(V1Descriptor(f.meta, |f.content|)) + f.content
  }

  function EncodeV1Files(fs: seq<V1File>): bytes
    requires ValidV1Files(fs)
  {
    if |fs| == 0 then [] else EncodeV1File(fs[0]) + EncodeV1Files(fs[1..])
  }

  function EncodeMember(m: Member): bytes
    requires ValidPath(m.path)
  {
    EncodeString(m.path) + EncodeMeta(m.meta)
  }

  function EncodeMembers(ms: seq<Member>): bytes
    requires ValidMembers(ms)
  {
    if |ms| == 0 then [] else EncodeMember(ms[0]) + EncodeMembers(ms[1..])
  }

  function EncodeGroup(g: Group): bytes
    requires ValidGroup(g)
  {
    EncodeU8(|g.members|) + EncodeMembers(g.members) + EncodeU32(|g.content|) + g.content
  }

  function EncodeGroups(gs: seq<Group>): bytes
    requires ValidGroups(gs)
  {
    if |gs| == 0 then [] else EncodeGroup(gs[0]) + EncodeGroups(gs[1..])
  }

  function HeaderOf(a: Archive): Header
    requires |a.dirs| < UINT32_LIMIT
    requires a.files.V1Files? ==> |a.files.files| < UINT32_LIMIT
  {
    match a.files
    case V1Files(fs) => Header(V1_MAGIC_BYTES, |a.dirs|, |fs|)
    case V2Groups(n, _) => Header(V2_MAGIC_BYTES, |a.dirs|, n)
  }

  function EncodeFiles(f: Files): bytes
    requires f.V1Files? ==> ValidV1Files(f.files)
    requires f.V2Groups? ==> ValidGroups(f.groups)
  {
    match f
    case V1Files(fs) => EncodeV1Files(fs)
    case V2Groups(_, gs) => EncodeGroups(gs)
  }

  function Encode(a: Archive): bytes
    requires ValidArchive(a)
  {
    EncodeHeader(HeaderOf(a)) + EncodeDirs(a.dirs) + EncodeFiles(a.files)
  }

  // ---------------------------------------------------------------- decoder

  // Each `...Count` lemma states that a decoder depends on its count only through the
  // count's value: two calls on the same bytes with equal counts give the same result. An
  // inductive proof names the smaller count `k := n - 1` and uses the lemma to identify its
  // result with the `n - 1` call that the function's own definition makes.

  /** Equal counts, equal results: the bridge from `k` to `n - 1` in inductive proofs. */
  lemma ParseDirsCount(s: bytes, a: nat, b: nat)
    requires a == b
    ensures ParseDirs(s, a) == ParseDirs(s, b)
  {
  }

  /** Equal counts, equal results: the bridge from `k` to `n - 1` in inductive proofs. */
  lemma ParseV1FilesCount(s: bytes, a: nat, b: nat)
    requires a == b
    ensures ParseV1Files(s, a) == ParseV1Files(s, b)
  {
  }

  /** Equal counts, equal results: the bridge from `k` to `n - 1` in inductive proofs. */
  lemma ParseMembersCount(s: bytes, a: nat, b: nat)
    requires a == b
    ensures ParseMembers(s, a) == ParseMembers(s, b)
  {
  }


  function ParseDirs(s: bytes, n: nat): (r: Decoded<seq<DirRecord>>)
    ensures r.Decoded? ==> |r.value| == n && |r.rest| <= |s|
    ensures r.Failed? ==> r.failure == ShortRead
    decreases n
  {
    if n == 0 then Decoded([], s)
    else
      match ReadDirRecord(s)
      case Short => Failed(ShortRead)
      case Got(d, s1) =>
        match ParseDirs(s1, n - 1)
        case Failed(e) => Failed(e)
        case Decoded(ds, s2) => Decoded([d] + ds, s2)
  }

  /** One V1 record: its path string, its 9-byte descriptor, then exactly `size` bytes of
      content. */
  function ParseV1File(s: bytes): (r: Decoded<V1File>)
    ensures r.Failed? ==> r.failure == ShortRead
    ensures r.Decoded? ==> ValidPath(r.value.path)
    ensures r.Decoded? ==> |r.rest| == |s| - 1 - |r.value.path| - FILE_DESCRIPTOR_SIZE - |r.value.content|
  {
    match ReadString(s)
    case Short => Failed(ShortRead)
    case Got(path, s1) =>
      match ReadV1Descriptor(s1)
      case Short => Failed(ShortRead)
      case Got(d, s2) =>
        match ReadBytes(s2, d.size)
        case Short => Failed(ShortRead)
        case Got(content, s3) => Decoded(V1File(path, d.meta, content), s3)
  }

  function ParseV1Files(s: bytes, n: nat): (r: Decoded<seq<V1File>>)
    ensures r.Decoded? ==> |r.value| == n
    decreases n
  {
    if n == 0 then Decoded([], s)
    else
      match ParseV1File(s)
      case Failed(e) => Failed(e)
      case Decoded(f, s1) =>
        match ParseV1Files(s1, n - 1)
        case Failed(e) => Failed(e)
        case Decoded(fs, s2) => Decoded([f] + fs, s2)
  }

  /** The V1 records fail only by running out of bytes. */
  lemma {:induction false} ParseV1FilesFailure(s: bytes, n: nat)
    requires ParseV1Files(s, n).Failed?
    ensures ParseV1Files(s, n).failure == ShortRead
    decreases n
  {
    if n > 0 {
      var r := ParseV1File(s);
      if r.Failed? {
        ParseV1FileFailure(s);
      } else {
        var k := n - 1;
        ParseV1FilesCount(r.rest, k, n - 1);
        ParseV1FilesFailure(r.rest, k);
      }
    }
  }

  lemma ParseV1FileFailure(s: bytes)
    requires ParseV1File(s).Failed?
    ensures ParseV1File(s).failure == ShortRead
  {
  }

  /** One V2 member record: its path string followed by its 5-byte descriptor. */
  function ReadMember(s: bytes): (r: Read<Member>)
    ensures r.Got? ==> ValidPath(r.value.path) && |r.rest| == |s| - 1 - |r.value.path| - V2_FILE_DESCRIPTOR_SIZE
  {
    match ReadString(s)
    case Short => Short
    case Got(path, s1) =>
      match ReadMeta(s1)
      case Short => Short
      case Got(meta, s2) => Got(Member(path, meta), s2)
  }

  function ParseMembers(s: bytes, n: nat): (r: Decoded<seq<Member>>)
    ensures r.Decoded? ==> |r.value| == n && |r.rest| <= |s|
    ensures r.Failed? ==> r.failure == ShortRead
    decreases n
  {
    if n == 0 then Decoded([], s)
    else
      match ReadMember(s)
      case Short => Failed(ShortRead)
      case Got(m, s1) =>
        match ParseMembers(s1, n - 1)
        case Failed(e) => Failed(e)
        case Decoded(ms, s2) => Decoded([m] + ms, s2)
  }

  /** One V2 group: a member count of at most 16, the members, a 32-bit size and the
      shared content. */
  function ParseGroup(s: bytes): (r: Decoded<Group>)
    ensures r.Decoded? ==> |r.rest| < |s|
    ensures r.Failed? ==> r.failure == ShortRead || r.failure.TooManyIdentical?
    ensures r.Failed? && r.failure.TooManyIdentical? <==> |s| > 0 && s[0] > MAX_IDENTICAL_FILES
    ensures r.Failed? && r.failure.TooManyIdentical? ==> r.failure.count == s[0]
  {
    match ReadU8(s)
    case Short => Failed(ShortRead)
    case Got(count, s1) =>
      if count > MAX_IDENTICAL_FILES then Failed(TooManyIdentical(count))
      else
        match ParseMembers(s1, count)
        case Failed(e) => Failed(e)
        case Decoded(ms, s2) =>
          match ReadU32(s2)
          case Short => Failed(ShortRead)
          case Got(size, s3) =>
            match ReadBytes(s3, size)
            case Short => Failed(ShortRead)
            case Got(content, s4) => Decoded(Group(ms, content), s4)
  }

  /** Groups until the 32-bit file counter, starting at `f`, reaches `fileCount`. */
  function ParseGroups(s: bytes, f: uint32, fileCount: uint32): (r: Decoded<seq<Group>>)
    ensures r.Failed? ==> r.failure == ShortRead || r.failure.TooManyIdentical?
    ensures r.Failed? && r.failure.TooManyIdentical? ==> r.failure.count > MAX_IDENTICAL_FILES
    decreases |s|
  {
    if f >= fileCount then Decoded([], s)
    else
      match ParseGroup(s)
      case Failed(e) => Failed(e)
      case Decoded(g, s1) =>
        match ParseGroups(s1, NextFileIndex(f, |g.members|), fileCount)
        case Failed(e) => Failed(e)
        case Decoded(gs, s2) => Decoded([g] + gs, s2)
  }

  /** The file records of the version the magic selected. */
  function ParseFiles(v: Version, s: bytes, fileCount: uint32): (r: Decoded<Files>)
    ensures r.Decoded? ==> (r.value.V1Files? <==> v == V1)
    ensures r.Failed? ==>
      (r.failure == ShortRead || (v == V2 && r.failure.TooManyIdentical? && r.failure.count > MAX_IDENTICAL_FILES))
  {
    match v
    case V1 =>
      (match ParseV1Files(s, fileCount)
       case Failed(e) => ParseV1FilesFailure(s, fileCount); Failed(e)
       case Decoded(fs, s1) => Decoded(V1Files(fs), s1))
    case V2 =>
      (match ParseGroups(s, 0, fileCount)
       case Failed(e) => Failed(e)
       case Decoded(gs, s1) => Decoded(V2Groups(fileCount, gs), s1))
  }

  /** Decodes a whole archive; trailing bytes after the last record are left unread. */
  function Parse(s: bytes): (r: Decoded<Archive>)
    ensures r.Failed? && r.failure == ShortHeader <==> |s| < HEADER_SIZE
    ensures r.Failed? && r.failure == BadMagic <==>
      |s| >= HEADER_SIZE && s[..MAGIC_SIZE] != V1_MAGIC_BYTES && s[..MAGIC_SIZE] != V2_MAGIC_BYTES
    ensures r.Decoded? ==> |s| >= HEADER_SIZE && (r.value.files.V1Files? <==> s[..MAGIC_SIZE] == V1_MAGIC_BYTES)
  {
    match ReadHeader(s)
    case Short => Failed(ShortHeader)
    case Got(h, s1) =>
      match MagicVersion(h.magic)
      case None => Failed(BadMagic)
      case Some(v) =>
        match ParseDirs(s1, h.dirCount)
        case Failed(e) => Failed(e)
        case Decoded(ds, s2) =>
          match ParseFiles(v, s2, h.fileCount)
          case Failed(e) => Failed(e)
          case Decoded(files, s3) => Decoded(Archive(ds, files), s3)
  }
}
