/** The MercyPak container format: constants, the fixed record layouts and the primitive
    field readers shared by the extractor and by the structured decoder.

    Wire layout (all integers little-endian):
      header    magic[4] dirCount:u32 fileCount:u32
      dir entry mode:u8 string
      V1 file   string flags:u8 date:u16 time:u16 size:u32 content[size]
      V2 group  count:u8 (count x (string flags:u8 date:u16 time:u16)) sharedSize:u32 content[sharedSize]
    where a string is one length byte n followed by n bytes. */
module MercyPak {
  import opened Wire

  // Field widths of the packed on-disk descriptor, in declaration order.
  const FLAGS_WIDTH: nat := 1
  const DATE_WIDTH: nat := 2
  const TIME_WIDTH: nat := 2
  const SIZE_WIDTH: nat := 4
  const FILENO_WIDTH: nat := 4

  /** Size of the packed in-memory descriptor; the trailing file number is not on disk. */
  const PACKED_DESCRIPTOR_SIZE: nat := FLAGS_WIDTH + DATE_WIDTH + TIME_WIDTH + SIZE_WIDTH + FILENO_WIDTH
  /** Bytes of descriptor following each V1 path: flags, date, time, size. */
  const FILE_DESCRIPTOR_SIZE: nat := PACKED_DESCRIPTOR_SIZE - FILENO_WIDTH
  /** Bytes of descriptor following each V2 member path: the size is stored once per group. */
  const V2_FILE_DESCRIPTOR_SIZE: nat := FILE_DESCRIPTOR_SIZE - SIZE_WIDTH

  const MAX_IDENTICAL_FILES: nat := 16

  const MAGIC_SIZE: nat := 4
  const HEADER_SIZE: nat := MAGIC_SIZE + 4 + 4

  const V1_MAGIC: string := "ZIEG"
  const V2_MAGIC: string := "MRCY"
  const V1_MAGIC_BYTES: bytes := [0x5A, 0x49, 0x45, 0x47]
  const V2_MAGIC_BYTES: bytes := [0x4D, 0x52, 0x43, 0x59]

  /** Room reserved after the install path and its "/" for one decoded string and its NUL. */
  const STRING_AREA: nat := 256

  const NUL: byte := 0

  datatype Version = V1 | V2

  /** The legacy DOS attribute byte and packed date and time, carried opaquely. */
  datatype DosMeta = DosMeta(flags: uint8, date: uint16, time: uint16)

  datatype V1Descriptor = V1Descriptor(meta: DosMeta, size: uint32)

  datatype Header = Header(magic: bytes, dirCount: uint32, fileCount: uint32)

  datatype DirRecord = DirRecord(mode: uint8, path: bytes)

  /** Why an extraction stops: each case is an assertion of the installer or a short read. */
  datatype Failure =
    | ShortHeader
    | BadMagic
    | ShortRead
    | TooManyIdentical(count: uint8)
    | OpenFailed(path: string)

  /** The characters of `bs` as a C string sees them: everything before the first NUL. */
  function CString(bs: bytes): (s: string)
    ensures |s| <= |bs|
    ensures forall i :: 0 <= i < |s| ==> bs[i] != NUL && s[i] == bs[i] as char
    ensures |s| == |bs| || bs[|s|] == NUL
  {
    if |bs| == 0 || bs[0] == NUL then "" else [bs[0] as char] + CString(bs[1..])
  }

  /** Grammar selected by a 4-byte magic, compared as a C string against both tags: only
      the exact bytes "ZIEG" select V1 and only "MRCY" select V2. */
  function MagicVersion(magic: bytes): (r: Option<Version>)
    ensures r.Some? ==> |magic| >= MAGIC_SIZE
    ensures |magic| == MAGIC_SIZE ==> (r == Some(V1) <==> magic == V1_MAGIC_BYTES)
    ensures |magic| == MAGIC_SIZE ==> (r == Some(V2) <==> magic == V2_MAGIC_BYTES)
  {
    MagicTags(magic);
    var tag := CString(magic);
    if tag == V1_MAGIC then Some(V1)
    else if tag == V2_MAGIC then Some(V2)
    else None
  }

  lemma CStringOfTag(m: bytes, tag: bytes)
    requires |m| == |tag| == 4 && NUL !in tag
    ensures CString(m) == CString(tag) <==> m == tag
  {
    var s, t := CString(m), CString(tag);
    assert |t| == 4;
    if s == t {
      assert forall i :: 0 <= i < 4 ==> m[i] as char == tag[i] as char;
    }
  }

  /** Both tags are NUL-free, so a 4-byte buffer reads as a tag exactly when it holds it. */
  lemma MagicTags(magic: bytes)
    ensures |magic| == MAGIC_SIZE ==> (CString(magic) == V1_MAGIC <==> magic == V1_MAGIC_BYTES)
    ensures |magic| == MAGIC_SIZE ==> (CString(magic) == V2_MAGIC <==> magic == V2_MAGIC_BYTES)
  {
    V1TagSpelling();
    V2TagSpelling();
    if |magic| == MAGIC_SIZE {
      CStringOfTag(magic, V1_MAGIC_BYTES);
      CStringOfTag(magic, V2_MAGIC_BYTES);
    }
  }

  /** The V1 tag's bytes spell "ZIEG". */
  lemma V1TagSpelling()
    ensures CString(V1_MAGIC_BYTES) == V1_MAGIC
  {
  }

  /** The V2 tag's bytes spell "MRCY". */
  lemma V2TagSpelling()
    ensures CString(V2_MAGIC_BYTES) == V2_MAGIC
  {
  }

  function EncodeString(str: bytes): bytes
    requires |str| < 0x100
  {
    EncodeU8(|str|) + str
  }

  /** A length-prefixed string: one length byte n, then n bytes. */
  function ReadString(s: bytes): (r: Read<bytes>)
    ensures r.Got? <==> |s| >= 1 && |s| > s[0]
    ensures r.Got? ==> |r.value| == s[0] && |r.value| < STRING_AREA
    ensures r.Got? ==> |r.rest| == |s| - 1 - |r.value|
  {
    match ReadU8(s)
    case Short => Short
    case Got(n, s1) =>
      match ReadBytes(s1, n)
      case Short => Short
      case Got(str, s2) => Got(str, s2)
  }

  /** Exactly the length byte and the string's own bytes were consumed. */
  lemma ReadStringCanonical(s: bytes)
    requires ReadString(s).Got?
    ensures s == EncodeString(ReadString(s).value) + ReadString(s).rest
  {
    ReadU8Canonical(s);
    var s1 := ReadU8(s).rest;
    ReadBytesCanonical(s1, ReadU8(s).value);
  }

  lemma ReadStringEncoded(str: bytes, t: bytes)
    requires |str| < 0x100
    ensures ReadString(EncodeString(str) + t) == Got(str, t)
  {
    assert EncodeString(str) + t == EncodeU8(|str|) + (str + t);
    ReadU8Encoded(|str|, str + t);
    ReadBytesExact(str, t);
  }

  function EncodeMeta(m: DosMeta): bytes
  {
    EncodeU8(m.flags) + EncodeU16(m.date) + EncodeU16(m.time)
  }

  /** The 5-byte V2 member descriptor: flags, date, time. */
  function ReadMeta(s: bytes): (r: Read<DosMeta>)
    ensures r.Got? <==> |s| >= V2_FILE_DESCRIPTOR_SIZE
    ensures r.Got? ==> |r.rest| == |s| - V2_FILE_DESCRIPTOR_SIZE
  {
    match ReadU8(s)
    case Short => Short
    case Got(flags, s1) =>
      match ReadU16(s1)
      case Short => Short
      case Got(date, s2) =>
        match ReadU16(s2)
        case Short => Short
        case Got(time, s3) => Got(DosMeta(flags, date, time), s3)
  }

  lemma ReadMetaCanonical(s: bytes)
    requires ReadMeta(s).Got?
    ensures s == EncodeMeta(ReadMeta(s).value) + ReadMeta(s).rest
  {
    ReadU8Canonical(s);
    var s1 := ReadU8(s).rest;
    ReadU16Canonical(s1);
    var s2 := ReadU16(s1).rest;
    ReadU16Canonical(s2);
    var m := ReadMeta(s).value;
    assert s == EncodeU8(m.flags) + (EncodeU16(m.date) + (EncodeU16(m.time) + ReadMeta(s).rest));
  }

  lemma ReadMetaEncoded(m: DosMeta, t: bytes)
    ensures ReadMeta(EncodeMeta(m) + t) == Got(m, t)
  {
    var s := EncodeMeta(m) + t;
    assert s == EncodeU8(m.flags) + (EncodeU16(m.date) + (EncodeU16(m.time) + t));
    ReadU8Encoded(m.flags, EncodeU16(m.date) + (EncodeU16(m.time) + t));
    ReadU16Encoded(m.date, EncodeU16(m.time) + t);
    ReadU16Encoded(m.time, t);
  }

  function EncodeV1Descriptor(d: V1Descriptor): bytes
  {
    EncodeMeta(d.meta) + EncodeU32(d.size)
  }

  /** The 9-byte V1 descriptor: flags, date, time, size. */
  function ReadV1Descriptor(s: bytes): (r: Read<V1Descriptor>)
    ensures r.Got? <==> |s| >= FILE_DESCRIPTOR_SIZE
    ensures r.Got? ==> |r.rest| == |s| - FILE_DESCRIPTOR_SIZE
  {
    match ReadMeta(s)
    case Short => Short
    case Got(meta, s1) =>
      match ReadU32(s1)
      case Short => Short
      case Got(size, s2) => Got(V1Descriptor(meta, size), s2)
  }

  lemma ReadV1DescriptorCanonical(s: bytes)
    requires ReadV1Descriptor(s).Got?
    ensures s == EncodeV1Descriptor(ReadV1Descriptor(s).value) + ReadV1Descriptor(s).rest
  {
    ReadMetaCanonical(s);
    var s1 := ReadMeta(s).rest;
    ReadU32Canonical(s1);
    var d := ReadV1Descriptor(s).value;
    assert s == EncodeMeta(d.meta) + (EncodeU32(d.size) + ReadV1Descriptor(s).rest);
  }

  lemma ReadV1DescriptorEncoded(d: V1Descriptor, t: bytes)
    ensures ReadV1Descriptor(EncodeV1Descriptor(d) + t) == Got(d, t)
  {
    assert EncodeV1Descriptor(d) + t == EncodeMeta(d.meta) + (EncodeU32(d.size) + t);
    ReadMetaEncoded(d.meta, EncodeU32(d.size) + t);
    ReadU32Encoded(d.size, t);
  }

  function EncodeHeader(h: Header): bytes
  {
    h.magic + EncodeU32(h.dirCount) + EncodeU32(h.fileCount)
  }

  /** The 12-byte archive header: magic, directory count, file count. */
  function ReadHeader(s: bytes): (r: Read<Header>)
    ensures r.Got? <==> |s| >= HEADER_SIZE
    ensures r.Got? ==> |r.value.magic| == MAGIC_SIZE && r.value.magic == s[..MAGIC_SIZE]
    ensures r.Got? ==> |r.rest| == |s| - HEADER_SIZE
  {
    match ReadBytes(s, MAGIC_SIZE)
    case Short => Short
    case Got(magic, s1) =>
      match ReadU32(s1)
      case Short => Short
      case Got(dirCount, s2) =>
        match ReadU32(s2)
        case Short => Short
        case Got(fileCount, s3) => Got(Header(magic, dirCount, fileCount), s3)
  }

  lemma ReadHeaderCanonical(s: bytes)
    requires ReadHeader(s).Got?
    ensures s == EncodeHeader(ReadHeader(s).value) + ReadHeader(s).rest
  {
    ReadBytesCanonical(s, MAGIC_SIZE);
    var s1 := ReadBytes(s, MAGIC_SIZE).rest;
    ReadU32Canonical(s1);
    var s2 := ReadU32(s1).rest;
    ReadU32Canonical(s2);
    var h := ReadHeader(s).value;
    assert s == h.magic + (EncodeU32(h.dirCount) + (EncodeU32(h.fileCount) + ReadHeader(s).rest));
  }

  lemma ReadHeaderEncoded(h: Header, t: bytes)
    requires |h.magic| == MAGIC_SIZE
    ensures ReadHeader(EncodeHeader(h) + t) == Got(h, t)
  {
    assert EncodeHeader(h) + t == h.magic + (EncodeU32(h.dirCount) + (EncodeU32(h.fileCount) + t));
    ReadBytesExact(h.magic, EncodeU32(h.dirCount) + (EncodeU32(h.fileCount) + t));
    ReadU32Encoded(h.dirCount, EncodeU32(h.fileCount) + t);
    ReadU32Encoded(h.fileCount, t);
  }

  function EncodeDirRecord(d: DirRecord): bytes
    requires |d.path| < 0x100
  {
    EncodeU8(d.mode) + EncodeString(d.path)
  }

  /** A directory entry: the mode byte, then the path string. */
  function ReadDirRecord(s: bytes): (r: Read<DirRecord>)
    ensures r.Got? ==> |r.value.path| < STRING_AREA && |r.rest| == |s| - 2 - |r.value.path|
  {
    match ReadU8(s)
    case Short => Short
    case Got(mode, s1) =>
      match ReadString(s1)
      case Short => Short
      case Got(path, s2) => Got(DirRecord(mode, path), s2)
  }

  lemma ReadDirRecordCanonical(s: bytes)
    requires ReadDirRecord(s).Got?
    ensures s == EncodeDirRecord(ReadDirRecord(s).value) + ReadDirRecord(s).rest
  {
    ReadU8Canonical(s);
    var s1 := ReadU8(s).rest;
    ReadStringCanonical(s1);
    var d := ReadDirRecord(s).value;
    assert s == EncodeU8(d.mode) + (EncodeString(d.path) + ReadDirRecord(s).rest);
  }

  lemma ReadDirRecordEncoded(d: DirRecord, t: bytes)
    requires |d.path| < 0x100
    ensures ReadDirRecord(EncodeDirRecord(d) + t) == Got(d, t)
  {
    assert EncodeDirRecord(d) + t == EncodeU8(d.mode) + (EncodeString(d.path) + t);
    ReadU8Encoded(d.mode, EncodeString(d.path) + t);
    ReadStringEncoded(d.path, t);
  }

  /** Rewrites every DOS separator '\' to '/'. */
  function NormalizeSeparators(p: string): (r: string)
    ensures |r| == |p|
    ensures forall i :: 0 <= i < |p| ==> r[i] == (if p[i] == '\\' then '/' else p[i])
  {
    if |p| == 0 then ""
    else [if p[0] == '\\' then '/' else p[0]] + NormalizeSeparators(p[1..])
  }

  /** Destination of a stored path: the install path, "/", then the stored path as a
      C string with its separators rewritten. */
  function DestPath(root: string, raw: bytes): (r: string)
    requires |raw| < STRING_AREA
    ensures |root| < |r| < |root| + 1 + STRING_AREA
    ensures r[..|root| + 1] == root + "/"
    ensures forall i :: |root| < i < |r| ==> r[i] != '\\' && r[i] != 0 as char
  {
    root + "/" + NormalizeSeparators(CString(raw))
  }

  /** The destination spelled out: after the install path and its "/", character i is the
      i-th character of the stored C string, with '\' read as '/'. */
  lemma DestPathSpelling(root: string, raw: bytes)
    requires |raw| < STRING_AREA
    ensures |DestPath(root, raw)| == |root| + 1 + |CString(raw)|
    ensures forall i :: 0 <= i < |CString(raw)| ==>
      DestPath(root, raw)[|root| + 1 + i] == if CString(raw)[i] == '\\' then '/' else CString(raw)[i]
  {
  }

  /** The V2 file counter `f += count` on a 32-bit unsigned integer. */
  function NextFileIndex(f: uint32, count: uint8): (r: uint32)
    ensures f + count < UINT32_LIMIT ==> r == f + count
    ensures f + count >= UINT32_LIMIT ==> r == f + count - UINT32_LIMIT
  {
    (f + count) % UINT32_LIMIT
  }
}
