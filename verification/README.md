# MercyPak extraction, modelled in Dafny

The Windows 9x installer unpacks its payload from MercyPak archives. `inst_copyFiles` in
`installer/install.c` reads a 12-byte header (magic, directory count, file count) and picks a
grammar from the magic: "ZIEG" is version 1 and "MRCY" is version 2. It then creates the
directories the archive lists. Last, it writes the files:

- Version 1 stores one record per file: the path, a 9-byte descriptor (flags, date, time,
  size) and the content.
- Version 2 stores groups of up to 16 paths, each with a 5-byte descriptor. One size and one
  content run follow, and that content is written to every member of the group.

`inst_getMercyPakString` reads the length-prefixed strings that carry the paths.
`inst_getCDFilePath` builds paths on the install medium.

The project has these modules:

- `Wire`: bytes, little-endian unsigned integers, and readers that return `Short` or the
  value with the unread rest.
- `MercyPak`: the format's constants and record layouts, the string, descriptor, header and
  directory-record readers, the C-string view of a buffer, the magic dispatch, and the
  destination path built from the install path.
- `Host`: a small filesystem, a set of directories plus a map from path to file. It has the
  calls the extractor makes: `mkdir` (where "already exists" counts as success), `open` with
  create and truncate, writing the copied bytes, and stamping the DOS date, time and
  attributes.
- `Archive`: an archive as a value, its encoder, and a pure decoder `Parse` that reads the
  stream in the extractor's order and stops where the extractor stops.
- `RoundTrip`: the decoder inverts the encoder (`Parse(Encode(a) + t) == Decoded(a, t)`), and
  whatever the decoder accepts is exactly the encoding of what it returns.
- `Replay`: a reference semantics `Apply` that plays a decoded archive onto the filesystem,
  plus lemmas about the final state: which paths exist, which bytes and metadata they hold,
  and that a later record for the same path wins.
- `Extract`: `inst_copyFiles` itself. It interleaves reading with filesystem calls in the
  installer's order: a V1 file is opened after its descriptor is read and before its content
  is copied, and a V2 member is opened before its descriptor is read.
- `Agreement`: the extractor and the decoder followed by `Apply` agree. On a decodable
  archive the two are equal. On one that does not decode, the extractor stops with the
  decoder's failure, or with an open that failed before that point.
- `Scenarios`: consequences for whole archives. These cover a short header, an unknown magic,
  an oversized group, a failed directory, an empty file, an empty file name, and two members
  sharing one content run.
- `SourcePaths`: `inst_getCDFilePath`, meaning `snprintf` into a 1024-byte buffer and the
  decimal formatting of the variant index.

Each installer assertion (`QI_ASSERT`) becomes an `Aborted` result carrying a `Failure` and
the filesystem as it was at that point. A `Completed` result is the installer returning true.

## Model

| member | source | states |
|---|---|---|
| Wire.ReadUInt | installer/install.c:448-451 | an unsigned integer of the given width is read exactly when that many bytes remain, and exactly those bytes are consumed |
| Wire.LittleEndianCanonical | installer/install.c:448-451 | re-encoding the value read reproduces the bytes read, so no two n-byte strings decode to the same value |
| Wire.ReadUIntEncoded | installer/install.c:448-451 | reading an encoded value returns that value and leaves the following bytes untouched |
| Wire.ReadBytes | installer/install.c:446 | a raw read of n bytes succeeds exactly when n bytes remain, and returns n bytes |
| MercyPak.ReadString | installer/install.c:424-432 | a string is read exactly when the length byte n and n more bytes are present; it has n < 256 bytes, so it fits the 256-byte area, and 1 + n bytes are consumed |
| MercyPak.ReadStringCanonical | installer/install.c:424-432 | the bytes consumed are exactly the length byte followed by the string |
| MercyPak.ReadStringEncoded | installer/install.c:424-432 | reading an encoded string of fewer than 256 bytes returns it and the rest of the stream |
| MercyPak.CString | installer/install.c:430 | the C-string view of a buffer is its longest NUL-free prefix |
| MercyPak.CStringOfTag | installer/install.c:457-460 | the 4 magic bytes, read as a C string, equal a NUL-free 4-byte tag exactly when the bytes are the tag |
| MercyPak.MagicVersion | installer/install.c:457-465 | the magic is compared as a C string, so only a buffer of at least 4 bytes can select a version; a 4-byte magic selects V1 exactly when its bytes are "ZIEG" and V2 exactly when they are "MRCY" |
| MercyPak.ReadHeader | installer/install.c:446-451 | the header is read exactly when 12 bytes remain; its magic is the first 4 bytes, and 12 bytes are consumed |
| MercyPak.ReadHeaderCanonical | installer/install.c:446-451 | the consumed bytes are the magic, then the directory count and the file count as 32-bit little-endian integers |
| MercyPak.ReadHeaderEncoded | installer/install.c:446-451 | reading an encoded header returns it and the rest |
| MercyPak.ReadV1Descriptor | installer/install.c:551 | the V1 descriptor is read exactly when 9 bytes remain, and consumes 9 bytes |
| MercyPak.ReadV1DescriptorCanonical | installer/install.c:51-62 | the descriptor on disk is flags (1 byte), date (2), time (2) and size (4), with the in-memory file number not stored |
| MercyPak.ReadV1DescriptorEncoded | installer/install.c:51-62 | reading an encoded descriptor returns it and the rest |
| MercyPak.ReadMeta | installer/install.c:520 | the V2 member descriptor is read exactly when 5 bytes remain, and consumes 5 bytes |
| MercyPak.ReadMetaCanonical | installer/install.c:61-64 | the V2 descriptor is the V1 descriptor without its 4-byte size: flags, date, time |
| MercyPak.ReadMetaEncoded | installer/install.c:61-64 | reading encoded metadata returns it and the rest |
| MercyPak.ReadDirRecord | installer/install.c:476-477 | a directory record is a mode byte and a string, and consumes 2 + the path length bytes |
| MercyPak.ReadDirRecordCanonical | installer/install.c:476-477 | the consumed bytes are the mode byte and the encoded path |
| MercyPak.NormalizeSeparators | installer/install.c:478 | every backslash becomes '/', and every other character and the length are unchanged |
| MercyPak.DestPath | installer/install.c:436-440 | the destination is the install path, "/", then the decoded path; it is at most 256 characters longer than the install path plus "/", and has no backslash or NUL after the install path |
| MercyPak.DestPathSpelling | installer/install.c:436-440 | after the install path and "/", the destination is exactly the stored path up to its first NUL, character by character, with each backslash read as '/' |
| MercyPak.NextFileIndex | installer/install.c:533 | `f += count` on a 32-bit unsigned counter wraps modulo 2^32 |
| Host.TrimSlashes | installer/install.c:479 | exactly the trailing '/' characters are dropped: what is kept is a prefix that does not end in '/' (unless it is the single character "/"), everything dropped is '/', and a non-empty path stays non-empty |
| Host.TrimTrailing | installer/install.c:479 | a name that does not end in '/', followed by any run of '/', trims back to that name |
| Host.ParentOfChild | installer/install.c:479 | the parent of "dir/name", with any number of trailing '/' characters, is `dir` |
| Host.MkDir | installer/install.c:479 | mkdir counts as success exactly when the path, without its trailing '/', already exists or its parent is a directory; success creates only that directory, and failure changes nothing |
| Host.Open | installer/install.c:553-554 | open with create and truncate succeeds exactly when the path does not end in '/', is not a directory, and either exists or has a directory parent; the file is then empty with no recorded DOS stamp, and no other file changes |
| Host.Write | installer/install.c:556 | the copy leaves exactly the copied bytes in the file and no other file changes |
| Host.Stamp | installer/install.c:558-559 | stamping sets the file's DOS date, time and flags and leaves its content and every other file alone |
| Host.OpenAllCompletes | installer/install.c:513-521 | opening the members in turn succeeds exactly when each of their paths can be opened in the starting filesystem |
| Host.OpenAll | installer/install.c:513-521 | the members are opened in order; if all open, exactly their paths are added, each empty, and other files are untouched; otherwise the refused path is one of them |
| Host.WriteAll | installer/install.c:525 | one copy gives every open member the same bytes and touches no other file |
| Host.StampAll | installer/install.c:527-531 | each member is stamped in order, so a path named twice ends with the metadata of its last member |
| Host.LastMetaOwn | installer/install.c:527-531 | a member whose path no later member repeats keeps its own metadata |
| Archive.ParseDirs | installer/install.c:471-480 | n directory records decode to n records, and the only way to fail is a short read |
| Archive.ParseV1File | installer/install.c:548-556 | a V1 record fails only by a short read; it is a path of fewer than 256 bytes, the 9-byte descriptor and its content, and consumes 1 + the path length + 9 + the content length bytes |
| Archive.ParseV1Files | installer/install.c:542-563 | n V1 records decode to n files |
| Archive.ParseV1FilesFailure | installer/install.c:542-563 | the V1 records can fail only by running out of bytes |
| Archive.ReadMember | installer/install.c:514-520 | a V2 member is a path of fewer than 256 bytes plus its 5-byte descriptor, and consumes 1 + the path length + 5 bytes |
| Archive.ParseMembers | installer/install.c:513-521 | k members decode to k members, and the only way to fail is a short read |
| Archive.ParseGroup | installer/install.c:509-525 | a group consumes at least one byte, even with 0 members; it fails only by a short read or by a count above 16, and it fails with "too many identical files" exactly when its first byte exceeds 16, carrying that byte |
| Archive.ParseGroups | installer/install.c:503-534 | the group loop fails only by a short read or by "too many identical files" carrying a count above 16 |
| Archive.ParseFiles | installer/install.c:494-565 | the file records decode to V1 records exactly when the version is V1; they fail only by a short read or, for V2, by a group count above 16 |
| Archive.Parse | installer/install.c:434-565 | decoding stops with a short header exactly when fewer than 12 bytes are given, and with a bad magic exactly when the first 4 bytes are neither "ZIEG" nor "MRCY"; a decoded archive has V1 records exactly when its magic is "ZIEG" |
| Archive.GroupsFitCount | installer/install.c:503-533 | when the counter does not wrap, the groups describe at least the announced number of files and overshoot it by fewer than 16 |
| RoundTrip.ParseDirsEncoded | installer/install.c:471-480 | encoded directory records decode to themselves and leave the rest |
| RoundTrip.ParseDirsCanonical | installer/install.c:471-480 | decoded directory records are valid, and the bytes consumed are their encoding |
| RoundTrip.ParseV1FileEncoded | installer/install.c:548-556 | an encoded V1 record, meaning path, descriptor and then exactly `size` content bytes, decodes to itself, and the next record starts right after it |
| RoundTrip.ParseV1FileCanonical | installer/install.c:548-556 | a decoded V1 record is valid, and the bytes consumed are exactly its encoding |
| RoundTrip.ParseV1FilesEncoded | installer/install.c:542-563 | encoded V1 records decode to themselves |
| RoundTrip.ParseV1FilesCanonical | installer/install.c:542-563 | decoded V1 records are valid, and the bytes consumed are their encoding |
| RoundTrip.ReadMemberEncoded | installer/install.c:514-520 | an encoded member decodes to itself |
| RoundTrip.ReadMemberCanonical | installer/install.c:514-520 | the bytes of a decoded member are its path string and descriptor |
| RoundTrip.ParseMembersEncoded | installer/install.c:513-521 | encoded members decode to themselves |
| RoundTrip.ParseMembersCanonical | installer/install.c:513-521 | decoded members are valid, and the bytes consumed are their encoding |
| RoundTrip.ParseGroupEncoded | installer/install.c:509-525 | an encoded group with at most 16 members decodes to itself |
| RoundTrip.ParseGroupCanonical | installer/install.c:509-525 | a decoded group has at most 16 members, its content has exactly the stored size, and the bytes consumed are its encoding |
| RoundTrip.ParseGroupsEncoded | installer/install.c:503-534 | encoded groups that bring the counter from f to the file count decode to themselves |
| RoundTrip.ParseGroupsCanonical | installer/install.c:503-534 | decoded groups are valid, bring the counter to the file count, and the bytes consumed are their encoding |
| RoundTrip.ParseFilesEncoded | installer/install.c:494-565 | encoded V1 records or V2 groups that fit the file count decode to themselves under the matching version |
| RoundTrip.ParseFilesCanonical | installer/install.c:494-565 | decoded files have the version's shape and fit the file count, and the bytes consumed are their encoding |
| RoundTrip.ParseEncoded | installer/install.c:434-565 | an encoded archive decodes to itself, whatever bytes follow it |
| RoundTrip.ParseCanonical | installer/install.c:434-565 | a decoded archive is valid, and the bytes consumed are exactly its encoding |
| Replay.ApplyDirs | installer/install.c:471-480 | the directory pass never touches files, only adds directories, and keeps directories and files disjoint |
| Replay.ApplyDirsOnlyNamed | installer/install.c:471-480 | the directory pass creates no directory except those the records name |
| Replay.ApplyDirsCreates | installer/install.c:471-480 | when the pass reports success, every directory named by a record, without its trailing '/', exists afterwards |
| Replay.ApplyDirsAttempts | installer/install.c:471-480 | a failed mkdir does not stop the pass: every record whose directory already exists, or whose parent is a directory, in the starting filesystem exists afterwards, whatever happened to earlier records |
| Replay.ApplyV1File | installer/install.c:548-561 | a V1 record completes exactly when its destination can be opened; otherwise it stops with that path and an unchanged filesystem; on success the file holds exactly the record's content and metadata, and no other file changes |
| Replay.ApplyV1Files | installer/install.c:542-563 | the V1 pass never touches directories, stops only at a failed open, creates exactly the destinations of its records, and leaves other files alone |
| Replay.V1LastWriterWins | installer/install.c:542-563 | after a completed V1 pass, each path holds the content and metadata of the last record naming it |
| Replay.ApplyGroup | installer/install.c:513-531 | a group never touches directories, stops only at a failed open, creates exactly its members' destinations, and leaves other files alone |
| Replay.ApplyGroupCompletes | installer/install.c:513-521 | a group completes exactly when every member's destination can be opened in the filesystem the group starts from |
| Replay.GroupSharesContent | installer/install.c:523-531 | every member of a completed group holds exactly the shared content, with the metadata of the last member naming that path |
| Replay.GroupMemberOwnMeta | installer/install.c:527-531 | a member whose path no later member repeats gets the shared content with its own flags, date and time |
| Replay.ApplyGroups | installer/install.c:503-534 | the V2 pass never touches directories, stops only at a failed open, and creates exactly the members' destinations |
| Replay.GroupsLastWriterWins | installer/install.c:503-534 | after a completed V2 pass, each path holds the content of the last group naming it, and the metadata of that group's last member naming it |
| Replay.Apply | installer/install.c:471-565 | replaying an archive stops only at a failed open, and its directories are those of the directory pass |
| Extract.DirPass | installer/install.c:471-480 | the extractor's directory loop never touches files and only adds directories |
| Extract.OpenMembers | installer/install.c:513-521 | the extractor's member loop opens one target per member, and adds exactly their paths; it never touches directories and stops only at a short read or a failed open |
| Extract.V1Pass | installer/install.c:542-563 | the extractor's V1 loop never touches directories, never removes a file, and stops only at a short read or a failed open |
| Extract.V2Pass | installer/install.c:503-534 | the extractor's V2 loop never touches directories, never removes a file, and stops only at a short read, a failed open, or a group count above 16 |
| Extract.FilePass | installer/install.c:494-565 | the file loop of the selected version never touches directories, never removes a file, and stops only at a short read, a failed open or, for V2 only, a group count above 16 |
| Extract.CopyFiles | installer/install.c:434-575 | the extraction stops with a short header exactly when fewer than 12 bytes are given and with a bad magic exactly when the magic is neither "ZIEG" nor "MRCY", in both cases before any filesystem call; it never removes a directory or a file |
| Agreement.DirPassDecoded | installer/install.c:471-480 | on decodable records the directory loop ends with the filesystem and status of `ApplyDirs`, even though a failed mkdir does not stop it |
| Agreement.DirPassFailed | installer/install.c:471-480 | on truncated directory records the directory loop stops short |
| Agreement.V1PassDecoded | installer/install.c:542-563 | on decodable V1 records the extractor's V1 loop is exactly `ApplyV1Files` |
| Agreement.V1PassFailed | installer/install.c:542-563 | on V1 records that do not decode, the V1 loop stops with a short read or a failed open |
| Agreement.OpenMembersDecoded | installer/install.c:513-521 | on decodable members the member loop opens exactly the targets that `OpenAll` opens |
| Agreement.OpenMembersFailed | installer/install.c:513-521 | on members that do not decode, the member loop stops with a short read or a failed open |
| Agreement.V2PassDecoded | installer/install.c:503-534 | on decodable groups the extractor's V2 loop is exactly `ApplyGroups` |
| Agreement.V2PassFailed | installer/install.c:503-534 | on groups that do not decode, the V2 loop stops with the decoder's failure or a failed open |
| Agreement.CopyFilesDecoded | installer/install.c:434-575 | on every decodable input the extractor ends exactly as `Apply` of the decoded archive |
| Agreement.CopyFilesFailed | installer/install.c:434-575 | on every input that does not decode, the extractor stops with the decoder's failure or a failed open; a short header or unknown magic leaves the filesystem untouched |
| Scenarios.ExtractEncoded | installer/install.c:434-575 | the extractor run on any encoded archive, followed by any bytes, is the replay of that archive |
| Scenarios.ShortHeaderUntouched | installer/install.c:446-451 | fewer than 12 bytes stop the extractor before any filesystem call |
| Scenarios.BadMagicUntouched | installer/install.c:457-465 | a magic other than "ZIEG" or "MRCY" stops the extractor before any directory or file is touched |
| Scenarios.TooManyIdenticalStops | installer/install.c:509-511 | a group count above 16 stops the extractor at that group |
| Scenarios.FailedDirectoryStillCompletes | installer/install.c:479-488 | a directory that cannot be created does not make an archive without files fail, because the directory pass's status is reset |
| Scenarios.EmptyFileCreated | installer/install.c:553-556 | a V1 record of size 0 still creates or truncates its file, which is left empty and stamped |
| Scenarios.EmptyNameAborts | installer/install.c:548-554 | a V1 record whose path is empty makes the extractor open the install path plus "/", which fails, so it stops there with the filesystem unchanged |
| Scenarios.GroupMembersShare | installer/install.c:513-531 | two members of one group get identical content, each with its own metadata |
| SourcePaths.Decimal | installer/install.c:91 | `%zu` yields decimal digits, with a leading '0' only for zero |
| SourcePaths.DecimalRoundTrip | installer/install.c:91 | the formatted digits denote the number formatted |
| SourcePaths.Truncate | installer/install.c:91-93 | `snprintf` keeps at most size - 1 characters, keeps a prefix of the formatted text, and keeps all of it when it fits |
| SourcePaths.CDFilePath | installer/install.c:88-96 | the path is fewer than 1024 characters and a prefix of the formatted text, and is the whole text when it fits |
| SourcePaths.VariantPathInjective | installer/install.c:88-96 | a variant path that fits determines its variant index and its file name |
| SourcePaths.RootShadowsVariant | installer/install.c:88-96 | for every variant v > 0, the root file "osroots/v/x" and file "x" of variant v have the same path, truncated or not |

## Left out

- Short reads: the model stops the extraction at the first read that runs out of bytes. In
  the installer a failed read only clears `success`, and the loop goes on with whatever the
  buffers held. What `mappedFile_read` leaves in them is not part of this model. A
  consequence is that truncated directory records with a file count of 0 make the installer
  return true, while the model stops with a short read.
- The reads themselves: `mappedFile_*`, including its read-ahead and the buffering in
  `mappedFile_copyToFiles`, are replaced by a byte sequence read front to back.
- Byte order: `mappedFile_getUInt32` and the packed descriptor copy are not part of this
  model. Multi-byte integers are taken to be little-endian, as on the x86 machines the
  installer runs on.
- Metadata setters: `util_setDosFileTime` and `util_setDosFileAttributes` are not part of this
  model. Stamping is taken to succeed and records the flags, date and time as given.
- Copy and close: `mappedFile_copyToFiles` writes are taken to succeed, and `close` is not
  modelled.
- Host.MkDir: the directory mode byte (`dirFlags`) is decoded but not recorded. The only
  failure is a missing parent directory; other errno values are not modelled.
- Host.Open: the only refusals are a trailing '/', a path that is a directory and a missing
  parent directory. Permissions and other errno values are not modelled. The date and time
  that truncation gives a file come from the clock, so they are recorded as no stamp, and the
  attribute byte is not tracked apart from the stamp.
- Paths are compared literally apart from trailing '/' characters: "..", "." and repeated
  separators inside a path are not resolved. On such paths the model can abort where the
  installer completes, or the other way round.
- Case: the destination is always a FAT partition (installer/install.c:350-351 refuses any
  other filesystem), and FAT looks names up without regard to case. The model compares
  names exactly. So with a directory "r/WINDOWS", the model refuses to open "r/windows/x"
  and aborts, where the installer writes the file. The same mismatch can arise between the
  three archives the installer extracts onto one partition.
- `util_stringEquals` and `util_stringReplaceChar` are not part of this model. They are taken
  to be C-string equality and to replace every occurrence before the terminating NUL.
- Memory allocation (`malloc`, `calloc`) is taken to succeed.
- Progress boxes, the installer wizard, disk and partition handling, and error messages are
  user interface or external tools.
- QI_ASSERT clears the screen and aborts the process. The model returns `Aborted` with the
  corresponding `Failure` instead.
- Archive.GroupsFitCount: stated only when the 32-bit file counter does not wrap. The decoder
  and the extractor still wrap it, as the installer does.
- SourcePaths.CDFilePath: the medium path is a parameter rather than the global `cdrompath`.
  Characters are counted one per byte, and `size_t` is taken to be 64 bits wide.
- Bytes are modelled as integers 0..255, and characters of decoded paths as the characters
  with those codes.
