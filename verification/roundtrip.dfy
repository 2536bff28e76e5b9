/** The decoder and the encoder are inverse: every valid archive decodes back to itself
    with any trailing bytes left over, and every successful decode is exactly the encoding
    of a valid archive followed by the unread remainder.

    Each inductive proof is split into small steps: `...Step` takes one successful decoding
    step apart into named pieces, `...Glue` puts the bytes of one record back in front of
    the rest, and `...Cons` / `...Split` do the same for the encoder, so that no proof
    has to unfold a reader and regroup byte strings at the same time. */
module RoundTrip {
  import opened Wire
  import opened MercyPak
  import opened Archive

  // ------------------------------------------------------------ directory records

  lemma ParseDirsCons(s: bytes, n: nat, d: DirRecord, s1: bytes, ds: seq<DirRecord>, rest: bytes)
    requires n > 0 && ReadDirRecord(s) == Got(d, s1) && ParseDirs(s1, n - 1) == Decoded(ds, rest)
    ensures ParseDirs(s, n) == Decoded([d] + ds, rest)
  {
  }

  lemma EncodeDirsSplit(ds: seq<DirRecord>, t: bytes)
    requires |ds| > 0 && ValidDirs(ds)
    ensures ValidDirs(ds[1..])
    ensures EncodeDirs(ds) + t == EncodeDirRecord(ds[0]) + (EncodeDirs(ds[1..]) + t)
  {
    AppendAssoc(EncodeDirRecord(ds[0]), EncodeDirs(ds[1..]), t);
  }

  lemma {:induction false} ParseDirsEncoded(ds: seq<DirRecord>, t: bytes)
    requires ValidDirs(ds)
    ensures ParseDirs(EncodeDirs(ds) + t, |ds|) == Decoded(ds, t)
  {
    if |ds| > 0 {
      EncodeDirsSplit(ds, t);
      var tail := EncodeDirs(ds[1..]) + t;
      ReadDirRecordEncoded(ds[0], tail);
      ParseDirsEncoded(ds[1..], t);
      ParseDirsCons(EncodeDirs(ds) + t, |ds|, ds[0], tail, ds[1..], t);
      assert [ds[0]] + ds[1..] == ds;
    }
  }

  lemma ParseDirsStep(s: bytes, n: nat, ds: seq<DirRecord>, rest: bytes)
      returns (d: DirRecord, s1: bytes, ds1: seq<DirRecord>)
    requires n > 0 && ParseDirs(s, n) == Decoded(ds, rest)
    ensures ReadDirRecord(s) == Got(d, s1)
    ensures ds == [d] + ds1 && ParseDirs(s1, n - 1) == Decoded(ds1, rest)
  {
    d, s1 := ReadDirRecord(s).value, ReadDirRecord(s).rest;
    ds1 := ParseDirs(s1, n - 1).value;
  }

  lemma ParseDirsGlue(s: bytes, d: DirRecord, s1: bytes, ds1: seq<DirRecord>, rest: bytes)
    requires ReadDirRecord(s) == Got(d, s1)
    requires ValidDirs(ds1) && s1 == EncodeDirs(ds1) + rest
    ensures ValidDirs([d] + ds1) && s == EncodeDirs([d] + ds1) + rest
  {
    ReadDirRecordCanonical(s);
    assert ([d] + ds1)[1..] == ds1;
    AppendAssoc(EncodeDirRecord(d), EncodeDirs(ds1), rest);
  }

  lemma {:induction false} ParseDirsCanonical(s: bytes, n: nat, ds: seq<DirRecord>, rest: bytes)
    requires ParseDirs(s, n) == Decoded(ds, rest)
    ensures ValidDirs(ds) && s == EncodeDirs(ds) + rest
    decreases n
  {
    if n > 0 {
      var d, s1, ds1 := ParseDirsStep(s, n, ds, rest);
      var k := n - 1;
      ParseDirsCount(s1, k, n - 1);
      ParseDirsCanonical(s1, k, ds1, rest);
      ParseDirsGlue(s, d, s1, ds1, rest);
    }
  }

  // ------------------------------------------------------------ V1 file records

  lemma ParseV1FileEncoded(f: V1File, t: bytes)
    requires ValidV1File(f)
    ensures ParseV1File(EncodeV1File(f) + t) == Decoded(f, t)
  {
    var d := V1Descriptor(f.meta, |f.content|);
    assert EncodeV1File(f) + t == EncodeString(f.path) + (EncodeV1Descriptor(d) + (f.content + t));
    ReadStringEncoded(f.path, EncodeV1Descriptor(d) + (f.content + t));
    ReadV1DescriptorEncoded(d, f.content + t);
    ReadBytesExact(f.content, t);
  }

  lemma ParseV1FileCanonical(s: bytes)
    requires ParseV1File(s).Decoded?
    ensures ValidV1File(ParseV1File(s).value)
    ensures s == EncodeV1File(ParseV1File(s).value) + ParseV1File(s).rest
  {
    ReadStringCanonical(s);
    var s1 := ReadString(s).rest;
    ReadV1DescriptorCanonical(s1);
    var s2 := ReadV1Descriptor(s1).rest;
    var d := ReadV1Descriptor(s1).value;
    ReadBytesCanonical(s2, d.size);
    var f := ParseV1File(s).value;
    assert EncodeV1Descriptor(V1Descriptor(f.meta, |f.content|)) == EncodeV1Descriptor(d);
    assert s == EncodeString(f.path) + (EncodeV1Descriptor(d) + (f.content + ParseV1File(s).rest));
  }

  lemma ParseV1FilesCons(s: bytes, n: nat, f: V1File, s1: bytes, fs: seq<V1File>, rest: bytes)
    requires n > 0 && ParseV1File(s) == Decoded(f, s1) && ParseV1Files(s1, n - 1) == Decoded(fs, rest)
    ensures ParseV1Files(s, n) == Decoded([f] + fs, rest)
  {
  }

  lemma EncodeV1FilesSplit(fs: seq<V1File>, t: bytes)
    requires |fs| > 0 && ValidV1Files(fs)
    ensures ValidV1Files(fs[1..])
    ensures EncodeV1Files(fs) + t == EncodeV1File(fs[0]) + (EncodeV1Files(fs[1..]) + t)
  {
    AppendAssoc(EncodeV1File(fs[0]), EncodeV1Files(fs[1..]), t);
  }

  lemma {:induction false} ParseV1FilesEncoded(fs: seq<V1File>, t: bytes)
    requires ValidV1Files(fs)
    ensures ParseV1Files(EncodeV1Files(fs) + t, |fs|) == Decoded(fs, t)
  {
    if |fs| > 0 {
      EncodeV1FilesSplit(fs, t);
      var tail := EncodeV1Files(fs[1..]) + t;
      ParseV1FileEncoded(fs[0], tail);
      ParseV1FilesEncoded(fs[1..], t);
      ParseV1FilesCons(EncodeV1Files(fs) + t, |fs|, fs[0], tail, fs[1..], t);
      assert [fs[0]] + fs[1..] == fs;
    }
  }

  lemma ParseV1FilesStep(s: bytes, n: nat, fs: seq<V1File>, rest: bytes)
      returns (f: V1File, s1: bytes, fs1: seq<V1File>)
    requires n > 0 && ParseV1Files(s, n) == Decoded(fs, rest)
    ensures ParseV1File(s) == Decoded(f, s1)
    ensures fs == [f] + fs1 && ParseV1Files(s1, n - 1) == Decoded(fs1, rest)
  {
    f, s1 := ParseV1File(s).value, ParseV1File(s).rest;
    fs1 := ParseV1Files(s1, n - 1).value;
  }

  lemma ParseV1FilesGlue(s: bytes, f: V1File, s1: bytes, fs1: seq<V1File>, rest: bytes)
    requires ParseV1File(s) == Decoded(f, s1)
    requires ValidV1Files(fs1) && s1 == EncodeV1Files(fs1) + rest
    ensures ValidV1Files([f] + fs1) && s == EncodeV1Files([f] + fs1) + rest
  {
    ParseV1FileCanonical(s);
    assert ([f] + fs1)[1..] == fs1;
    AppendAssoc(EncodeV1File(f), EncodeV1Files(fs1), rest);
  }

  lemma {:induction false} ParseV1FilesCanonical(s: bytes, n: nat, fs: seq<V1File>, rest: bytes)
    requires ParseV1Files(s, n) == Decoded(fs, rest)
    ensures ValidV1Files(fs) && s == EncodeV1Files(fs) + rest
    decreases n
  {
    if n > 0 {
      var f, s1, fs1 := ParseV1FilesStep(s, n, fs, rest);
      var k := n - 1;
      ParseV1FilesCount(s1, k, n - 1);
      ParseV1FilesCanonical(s1, k, fs1, rest);
      ParseV1FilesGlue(s, f, s1, fs1, rest);
    }
  }

  // ------------------------------------------------------------ V2 members

  lemma ReadMemberEncoded(m: Member, t: bytes)
    requires ValidPath(m.path)
    ensures ReadMember(EncodeMember(m) + t) == Got(m, t)
  {
    assert EncodeMember(m) + t == EncodeString(m.path) + (EncodeMeta(m.meta) + t);
    ReadStringEncoded(m.path, EncodeMeta(m.meta) + t);
    ReadMetaEncoded(m.meta, t);
  }

  lemma ReadMemberCanonical(s: bytes)
    requires ReadMember(s).Got?
    ensures s == EncodeMember(ReadMember(s).value) + ReadMember(s).rest
  {
    ReadStringCanonical(s);
    var s1 := ReadString(s).rest;
    ReadMetaCanonical(s1);
    var m := ReadMember(s).value;
    assert s == EncodeString(m.path) + (EncodeMeta(m.meta) + ReadMember(s).rest);
  }

  lemma ParseMembersCons(s: bytes, n: nat, m: Member, s1: bytes, ms: seq<Member>, rest: bytes)
    requires n > 0 && ReadMember(s) == Got(m, s1) && ParseMembers(s1, n - 1) == Decoded(ms, rest)
    ensures ParseMembers(s, n) == Decoded([m] + ms, rest)
  {
  }

  lemma EncodeMembersSplit(ms: seq<Member>, t: bytes)
    requires |ms| > 0 && ValidMembers(ms)
    ensures ValidMembers(ms[1..])
    ensures EncodeMembers(ms) + t == EncodeMember(ms[0]) + (EncodeMembers(ms[1..]) + t)
  {
    AppendAssoc(EncodeMember(ms[0]), EncodeMembers(ms[1..]), t);
  }

  lemma {:induction false} ParseMembersEncoded(ms: seq<Member>, t: bytes)
    requires ValidMembers(ms)
    ensures ParseMembers(EncodeMembers(ms) + t, |ms|) == Decoded(ms, t)
  {
    if |ms| > 0 {
      EncodeMembersSplit(ms, t);
      var tail := EncodeMembers(ms[1..]) + t;
      ReadMemberEncoded(ms[0], tail);
      ParseMembersEncoded(ms[1..], t);
      ParseMembersCons(EncodeMembers(ms) + t, |ms|, ms[0], tail, ms[1..], t);
      assert [ms[0]] + ms[1..] == ms;
    }
  }

  lemma ParseMembersStep(s: bytes, n: nat, ms: seq<Member>, rest: bytes)
      returns (m: Member, s1: bytes, ms1: seq<Member>)
    requires n > 0 && ParseMembers(s, n) == Decoded(ms, rest)
    ensures ReadMember(s) == Got(m, s1)
    ensures ms == [m] + ms1 && ParseMembers(s1, n - 1) == Decoded(ms1, rest)
  {
    m, s1 := ReadMember(s).value, ReadMember(s).rest;
    ms1 := ParseMembers(s1, n - 1).value;
  }

  lemma ParseMembersGlue(s: bytes, m: Member, s1: bytes, ms1: seq<Member>, rest: bytes)
    requires ReadMember(s) == Got(m, s1)
    requires ValidMembers(ms1) && s1 == EncodeMembers(ms1) + rest
    ensures ValidMembers([m] + ms1) && s == EncodeMembers([m] + ms1) + rest
  {
    ReadMemberCanonical(s);
    assert ([m] + ms1)[1..] == ms1;
    AppendAssoc(EncodeMember(m), EncodeMembers(ms1), rest);
  }

  lemma {:induction false} ParseMembersCanonical(s: bytes, n: nat, ms: seq<Member>, rest: bytes)
    requires ParseMembers(s, n) == Decoded(ms, rest)
    ensures ValidMembers(ms) && s == EncodeMembers(ms) + rest
    decreases n
  {
    if n > 0 {
      var m, s1, ms1 := ParseMembersStep(s, n, ms, rest);
      var k := n - 1;
      ParseMembersCount(s1, k, n - 1);
      ParseMembersCanonical(s1, k, ms1, rest);
      ParseMembersGlue(s, m, s1, ms1, rest);
    }
  }

  // ------------------------------------------------------------ V2 groups

  lemma ParseGroupEncoded(g: Group, t: bytes)
    requires ValidGroup(g)
    ensures ParseGroup(EncodeGroup(g) + t) == Decoded(g, t)
  {
    var a, b, c := EncodeU8(|g.members|), EncodeMembers(g.members), EncodeU32(|g.content|);
    AppendAssoc(a + b + c, g.content, t);
    AppendAssoc(a + b, c, g.content + t);
    AppendAssoc(a, b, c + (g.content + t));
    var tail := c + (g.content + t);
    ReadU8Encoded(|g.members|, EncodeMembers(g.members) + tail);
    ParseMembersEncoded(g.members, tail);
    ReadU32Encoded(|g.content|, g.content + t);
    ReadBytesExact(g.content, t);
  }

  /** One decoded group taken apart into its four reads. */
  lemma ParseGroupStep(s: bytes, g: Group, rest: bytes)
      returns (c: nat, s1: bytes, s2: bytes, z: nat, s3: bytes)
    requires ParseGroup(s) == Decoded(g, rest)
    ensures ReadU8(s) == Got(c, s1) && c <= MAX_IDENTICAL_FILES
    ensures ParseMembers(s1, c) == Decoded(g.members, s2)
    ensures ReadU32(s2) == Got(z, s3) && ReadBytes(s3, z) == Got(g.content, rest)
  {
    c, s1 := ReadU8(s).value, ReadU8(s).rest;
    s2 := ParseMembers(s1, c).rest;
    z, s3 := ReadU32(s2).value, ReadU32(s2).rest;
  }

  /** Each of the four reads consumed exactly the encoding of what it returned. */
  lemma ParseGroupPieces(s: bytes, c: nat, s1: bytes, ms: seq<Member>, s2: bytes, z: nat, s3: bytes,
                         content: bytes, rest: bytes)
    requires ReadU8(s) == Got(c, s1) && c <= MAX_IDENTICAL_FILES
    requires ParseMembers(s1, c) == Decoded(ms, s2)
    requires ReadU32(s2) == Got(z, s3) && ReadBytes(s3, z) == Got(content, rest)
    ensures |ms| <= MAX_IDENTICAL_FILES && ValidMembers(ms) && |content| < UINT32_LIMIT
    ensures s == EncodeU8(|ms|) + s1 && s1 == EncodeMembers(ms) + s2
    ensures s2 == EncodeU32(|content|) + s3 && s3 == content + rest
  {
    ReadU8Canonical(s);
    ParseMembersCanonical(s1, c, ms, s2);
    ReadU32Canonical(s2);
    ReadBytesCanonical(s3, z);
  }

  lemma ParseGroupGlue(s: bytes, s1: bytes, s2: bytes, s3: bytes, g: Group, rest: bytes)
    requires ValidGroup(g)
    requires s == EncodeU8(|g.members|) + s1 && s1 == EncodeMembers(g.members) + s2
    requires s2 == EncodeU32(|g.content|) + s3 && s3 == g.content + rest
    ensures s == EncodeGroup(g) + rest
  {
    var a, b, c := EncodeU8(|g.members|), EncodeMembers(g.members), EncodeU32(|g.content|);
    AppendAssoc(a + b + c, g.content, rest);
    AppendAssoc(a + b, c, g.content + rest);
    AppendAssoc(a, b, c + (g.content + rest));
  }

  lemma ParseGroupCanonical(s: bytes, g: Group, rest: bytes)
    requires ParseGroup(s) == Decoded(g, rest)
    ensures ValidGroup(g) && s == EncodeGroup(g) + rest
  {
    var c, s1, s2, z, s3 := ParseGroupStep(s, g, rest);
    ParseGroupPieces(s, c, s1, g.members, s2, z, s3, g.content, rest);
    ParseGroupGlue(s, s1, s2, s3, g, rest);
  }

  lemma ParseGroupsCons(s: bytes, f: uint32, n: uint32, g: Group, s1: bytes, gs: seq<Group>, rest: bytes)
    requires f < n && ParseGroup(s) == Decoded(g, s1)
    requires ParseGroups(s1, NextFileIndex(f, |g.members|), n) == Decoded(gs, rest)
    ensures ParseGroups(s, f, n) == Decoded([g] + gs, rest)
  {
  }

  lemma EncodeGroupsSplit(gs: seq<Group>, t: bytes)
    requires |gs| > 0 && ValidGroups(gs)
    ensures ValidGroups(gs[1..])
    ensures EncodeGroups(gs) + t == EncodeGroup(gs[0]) + (EncodeGroups(gs[1..]) + t)
  {
    AppendAssoc(EncodeGroup(gs[0]), EncodeGroups(gs[1..]), t);
  }

  lemma {:induction false} ParseGroupsEncoded(gs: seq<Group>, f: uint32, n: uint32, t: bytes)
    requires ValidGroups(gs) && GroupsFit(gs, f, n)
    ensures ParseGroups(EncodeGroups(gs) + t, f, n) == Decoded(gs, t)
  {
    if |gs| > 0 {
      EncodeGroupsSplit(gs, t);
      var tail := EncodeGroups(gs[1..]) + t;
      ParseGroupEncoded(gs[0], tail);
      ParseGroupsEncoded(gs[1..], NextFileIndex(f, |gs[0].members|), n, t);
      ParseGroupsCons(EncodeGroups(gs) + t, f, n, gs[0], tail, gs[1..], t);
      assert [gs[0]] + gs[1..] == gs;
    }
  }

  lemma ParseGroupsStep(s: bytes, f: uint32, n: uint32, gs: seq<Group>, rest: bytes)
      returns (g: Group, s1: bytes, gs1: seq<Group>, next: uint32)
    requires f < n && ParseGroups(s, f, n) == Decoded(gs, rest)
    ensures ParseGroup(s) == Decoded(g, s1) && |s1| < |s|
    ensures next == NextFileIndex(f, |g.members|)
    ensures gs == [g] + gs1 && ParseGroups(s1, next, n) == Decoded(gs1, rest)
  {
    g, s1 := ParseGroup(s).value, ParseGroup(s).rest;
    next := NextFileIndex(f, |g.members|);
    gs1 := ParseGroups(s1, next, n).value;
  }

  lemma ParseGroupsGlue(s: bytes, f: uint32, n: uint32, g: Group, s1: bytes, gs1: seq<Group>, rest: bytes)
    requires f < n && ParseGroup(s) == Decoded(g, s1)
    requires ValidGroups(gs1) && GroupsFit(gs1, NextFileIndex(f, |g.members|), n)
    requires s1 == EncodeGroups(gs1) + rest
    ensures ValidGroups([g] + gs1) && GroupsFit([g] + gs1, f, n)
    ensures s == EncodeGroups([g] + gs1) + rest
  {
    ParseGroupCanonical(s, g, s1);
    assert ([g] + gs1)[1..] == gs1;
    AppendAssoc(EncodeGroup(g), EncodeGroups(gs1), rest);
  }

  lemma {:induction false} ParseGroupsCanonical(s: bytes, f: uint32, n: uint32, gs: seq<Group>, rest: bytes)
    requires ParseGroups(s, f, n) == Decoded(gs, rest)
    ensures ValidGroups(gs) && GroupsFit(gs, f, n)
    ensures s == EncodeGroups(gs) + rest
    decreases |s|
  {
    if f < n {
      var g, s1, gs1, next := ParseGroupsStep(s, f, n, gs, rest);
      ParseGroupsCanonical(s1, next, n, gs1, rest);
      ParseGroupsGlue(s, f, n, g, s1, gs1, rest);
    }
  }

  // ------------------------------------------------------------ whole archive

  lemma ParseFilesEncoded(v: Version, files: Files, fileCount: uint32, t: bytes)
    requires v == V1 ==> files.V1Files? && |files.files| == fileCount && ValidV1Files(files.files)
    requires v == V2 ==> files.V2Groups? && files.fileCount == fileCount
    requires v == V2 ==> ValidGroups(files.groups) && GroupsFit(files.groups, 0, fileCount)
    ensures ParseFiles(v, EncodeFiles(files) + t, fileCount) == Decoded(files, t)
  {
    match v
    case V1 => ParseV1FilesEncoded(files.files, t);
    case V2 => ParseGroupsEncoded(files.groups, 0, fileCount, t);
  }

  lemma ParseCons(s: bytes, h: Header, s1: bytes, v: Version, s2: bytes, a: Archive, rest: bytes)
    requires ReadHeader(s) == Got(h, s1) && MagicVersion(h.magic) == Some(v)
    requires ParseDirs(s1, h.dirCount) == Decoded(a.dirs, s2)
    requires ParseFiles(v, s2, h.fileCount) == Decoded(a.files, rest)
    ensures Parse(s) == Decoded(a, rest)
  {
  }

  /** Decoding an encoded valid archive gives it back and leaves the trailing bytes. */
  lemma ParseEncoded(a: Archive, t: bytes)
    requires ValidArchive(a)
    ensures Parse(Encode(a) + t) == Decoded(a, t)
  {
    var h := HeaderOf(a);
    var x, y, z := EncodeHeader(h), EncodeDirs(a.dirs), EncodeFiles(a.files);
    AppendAssoc(x + y, z, t);
    AppendAssoc(x, y, z + t);
    ReadHeaderEncoded(h, y + (z + t));
    var v := if a.files.V1Files? then V1 else V2;
    ParseDirsEncoded(a.dirs, z + t);
    ParseFilesEncoded(v, a.files, h.fileCount, t);
    ParseCons(Encode(a) + t, h, y + (z + t), v, z + t, a, t);
  }

  /** The file records of a successful decode, by version. */
  lemma ParseFilesCanonical(v: Version, s: bytes, fileCount: uint32, files: Files, rest: bytes)
    requires ParseFiles(v, s, fileCount) == Decoded(files, rest)
    ensures v == V1 ==> files.V1Files? && |files.files| == fileCount && ValidV1Files(files.files)
    ensures v == V2 ==> files.V2Groups? && files.fileCount == fileCount
    ensures v == V2 ==> ValidGroups(files.groups) && GroupsFit(files.groups, 0, fileCount)
    ensures files.V1Files? ==> ValidV1Files(files.files)
    ensures files.V2Groups? ==> ValidGroups(files.groups)
    ensures s == EncodeFiles(files) + rest
  {
    match v
    case V1 =>
      var pf := ParseV1Files(s, fileCount);
      ParseV1FilesCanonical(s, fileCount, pf.value, pf.rest);
    case V2 =>
      var pg := ParseGroups(s, 0, fileCount);
      ParseGroupsCanonical(s, 0, fileCount, pg.value, pg.rest);
  }

  lemma ParseStep(s: bytes, a: Archive, rest: bytes) returns (h: Header, s1: bytes, v: Version, s2: bytes)
    requires Parse(s) == Decoded(a, rest)
    ensures ReadHeader(s) == Got(h, s1) && MagicVersion(h.magic) == Some(v)
    ensures ParseDirs(s1, h.dirCount) == Decoded(a.dirs, s2)
    ensures ParseFiles(v, s2, h.fileCount) == Decoded(a.files, rest)
  {
    h, s1 := ReadHeader(s).value, ReadHeader(s).rest;
    v := MagicVersion(h.magic).value;
    s2 := ParseDirs(s1, h.dirCount).rest;
  }

  lemma ParseGlue(s: bytes, h: Header, s1: bytes, v: Version, s2: bytes, a: Archive, rest: bytes)
    requires ReadHeader(s) == Got(h, s1) && MagicVersion(h.magic) == Some(v)
    requires |a.dirs| == h.dirCount && ValidDirs(a.dirs) && s1 == EncodeDirs(a.dirs) + s2
    requires v == V1 ==> a.files.V1Files? && |a.files.files| == h.fileCount && ValidV1Files(a.files.files)
    requires v == V2 ==> a.files.V2Groups? && a.files.fileCount == h.fileCount
    requires v == V2 ==> ValidGroups(a.files.groups) && GroupsFit(a.files.groups, 0, h.fileCount)
    requires s2 == EncodeFiles(a.files) + rest
    ensures ValidArchive(a) && s == Encode(a) + rest
  {
    assert HeaderOf(a) == h;
    ReadHeaderCanonical(s);
    var x, y, z := EncodeHeader(h), EncodeDirs(a.dirs), EncodeFiles(a.files);
    AppendAssoc(x + y, z, rest);
    AppendAssoc(x, y, z + rest);
  }

  /** A successful decode consumed exactly the encoding of a valid archive. */
  lemma ParseCanonical(s: bytes, a: Archive, rest: bytes)
    requires Parse(s) == Decoded(a, rest)
    ensures ValidArchive(a) && s == Encode(a) + rest
  {
    var h, s1, v, s2 := ParseStep(s, a, rest);
    ParseDirsCanonical(s1, h.dirCount, a.dirs, s2);
    ParseFilesCanonical(v, s2, h.fileCount, a.files, rest);
    ParseGlue(s, h, s1, v, s2, a, rest);
  }
}
