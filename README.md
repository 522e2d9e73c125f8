# lib_tar in Dafny

A model of `lib_tar.c`, a read-only library that walks a tar archive in the ustar layout. That layout is the "ustar Interchange Format" of the pax utility's Extended Description in POSIX.1 (IEEE Std 1003.1). The library's public functions are `check_archive`, `exists`, `is_dir`, `is_file`, `is_symlink`, `list` and `read_file`. They share the helpers `checkEnd` and `pathoflink`, and they all run the same header walk:

1. read a 512-byte header at the descriptor's offset;
2. act on it;
3. skip `512 * ceil(size / 512)` data bytes;
4. ask `checkEnd` whether the next block is the zero terminator.

The archive is an immutable byte sequence, and the descriptor's offset is the field `pos` of class `LibTar.Archive`. Each public function and `checkEnd` becomes a method of that class; `pathoflink`, which uses no descriptor, is the module-level method `Paths.PathOfLink`. Each method keeps the C code's loops, and its `ensures` ties its results and the final `pos` to a pure function of module `TarWalk`. The fact that every step advances at least one block serves as the termination measure. The properties lib_tar.c promises are then proved as lemmas about those functions. Query paths are C strings, so the query methods require that the path holds no NUL; paths resolved through a symlink keep that property (`Paths.LinkPathNulFree`).

Files:

- `format.dfy` (module `TarFormat`): the header layout, the C strings held in fixed-width fields, octal decoding (`TAR_INT`) and the wrapped signed-`char` sums.
- `paths.dfy` (module `Paths`): `strncmp` prefix tests, the last-'/' scan and `pathoflink`.
- `walk.dfy` (module `TarWalk`): the header walk, and one specification function per library function, with their lemmas.
- `libtar.dfy` (module `LibTar`): the class `Archive`, with one method per public function and one for `checkEnd`, and the helper methods for the per-header steps.

Some definitions come from `lib_tar.h`, which is not part of this model: `TAR_INT`, `tar_header_t` and the constants. The model assumes the standard `<tar.h>` values:

| constant | value |
|---|---|
| `TMAGIC` | "ustar" |
| `TMAGLEN` | 6 |
| `TVERSION` | "00" |
| `TVERSLEN` | 2 |
| `DIRTYPE` | '5' |
| `REGTYPE` | '0' |
| `AREGTYPE` | '\0' |
| `SYMTYPE` | '2' |

It also assumes the ustar field offsets: name 0 (100 bytes), size 124 (12), chksum 148 (8), typeflag 156, linkname 157 (100), magic 257 (6) and version 263 (2). `TAR_INT` is the value of the field's leading octal digits.

Bytes are summed as signed `char` values, as read from the `char buf[512]` on a signed-`char` ABI, into a wrapped 32-bit `uint`. POSIX specifies unsigned byte sums. `TarFormat.AsciiBlockSum` and `TarFormat.AsciiChecksum` prove that the two agree on ASCII-only headers.

### Where the documentation comments and the code differ

The model follows the code in every case below.

- `check_archive`'s comment asks for a magic value of "ustar" followed by a null. The code compares only `TMAGLEN - 1` = 5 bytes (lib_tar.c:73), so a missing null is accepted (`TarWalk.HeaderCodeMeaning`).
- `check_archive`'s comment promises "zero or positive". The first block is always checked as a header, so an empty archive gives -1, not 0 (`TarWalk.EmptyArchiveBadMagic`).
- `list`'s comment says it lists the entries of a directory. The code lists the names that have the path as a prefix and pass its depth test, up to `*no_entries` of them. That includes the directory's own entry "dir/" when that header is present (`TarWalk.ListPassIsReference`).
- `list`'s comment says a symlink at the given path is resolved. The code restarts the listing on any matching `SYMTYPE` header, not only the one at the path: listing "dir/" when "dir/l" is a symlink to "x" restarts the listing on "dir/x" (`TarWalk.ListFromEnds`). The names written before the symlink stay in the array and are overwritten from index 0.
- `list`'s comment says it returns 0 when no directory exists at the path. The code returns 1 whenever the walk ends without meeting a symlink, even when nothing matched (`TarWalk.ListNothingMatched`).
- `list`'s comment says it does not recurse. A deeper directory entry such as "dir/c/e/" passes the "ends right after its last '/'" test and is listed while the array has room (`TarWalk.KeepMeaning`).
- `list`'s comment says it does not recurse into the listed directories. The depth test measures each name against the last '/' of the first matching header, not against the listed path (lib_tar.c:282-285). When "dir/c/d" is the first header under "dir/", a later "dir/c/x" passes the test and is listed too (`TarWalk.ListReference`, `TarWalk.ListedDepth`).
- `read_file`'s comment says it returns -1 when the entry is not a file. The code returns -1 only for a `DIRTYPE` match or when nothing matches (lib_tar.c:341-343, lib_tar.c:368). A hard link, FIFO or device entry has its data area read like a regular file's (`TarWalk.ReadOtherType`).
- The prefix rule differs between functions:
  - `exists` and `is_dir` compare up to the stored name's length, so the name must be a prefix of the path;
  - `is_file`, `is_symlink`, `list` and `read_file` compare up to the path's length, so the path must be a prefix of the name.

## Model

| member | source | states |
|---|---|---|
| TarFormat.Name | lib_tar.c:120 | defines `a_header->name` as a C string: the 100-byte field at offset 0, cut at its first NUL |
| TarFormat.Size | lib_tar.c:89 | defines `TAR_INT(a_header->size)`: the octal value of the 12-byte field at offset 124 |
| TarFormat.Chksum | lib_tar.c:86 | defines `TAR_INT(a_header->chksum)`: the octal value of the 8-byte field at offset 148 |
| TarFormat.Typeflag | lib_tar.c:151 | defines `a_header->typeflag`: the character at offset 156 |
| TarFormat.Linkname | lib_tar.c:272 | defines `a_header->linkname` as a C string: the 100-byte field at offset 157, cut at its first NUL |
| TarFormat.Magic | lib_tar.c:73 | defines `a_header->magic` as a C string: the 6-byte field at offset 257, cut at its first NUL |
| TarFormat.Version | lib_tar.c:74 | defines `a_header->version` as a C string: the 2-byte field at offset 263, cut at its first NUL |
| TarFormat.CStringIsNulFreePrefix | lib_tar.c:120 | the string `strlen` sees in a field is the field's longest NUL-free prefix, cut at the field's width |
| TarFormat.CString | lib_tar.c:120 | defines what `strlen` sees in a fixed-width field: the bytes before the first NUL, or the whole field |
| TarFormat.OctalValue | lib_tar.c:86 | defines `TAR_INT`: the value of the field's leading octal digits |
| TarFormat.DecodedStrings | lib_tar.c:270-277 | a header's name and linkname are at most 100 characters and contain no NUL |
| TarFormat.OctalRoundTrip | lib_tar.c:86 | `TAR_INT` of a field holding `n` as `w` octal digits, followed by a non-digit, is `n` |
| TarFormat.EncodeOctalValue | lib_tar.c:89 | `w` octal digits written for `n < 8^w` have the value `n` |
| TarFormat.UintSum | lib_tar.c:15-18 | the `uint` accumulator always lies in [0, 2^32) |
| TarFormat.SignedChar | lib_tar.c:17 | defines a byte's value as a signed `char`: bytes from 128 up are negative |
| TarFormat.Checksum | lib_tar.c:77-84 | defines the checksum: the wrapped signed sum of the header with the eight chksum bytes read as spaces |
| TarFormat.UintSumIsWrappedSum | lib_tar.c:15-18 | accumulating with wrap-around at every step equals the signed sum taken mod 2^32 |
| TarFormat.ZeroBlockSum | lib_tar.c:15-21 | a run of zero bytes sums to 0 |
| TarFormat.AsciiSignedIsUnsigned | lib_tar.c:82 | on ASCII bytes the signed-`char` sum equals the unsigned sum and is at most 127 per byte |
| TarFormat.UnsignedSumZero | lib_tar.c:21 | an unsigned byte sum is 0 exactly when every byte is 0 |
| TarFormat.AsciiBlockSum | lib_tar.c:15-21 | on an ASCII block the wrapped sum equals the unsigned sum, and it is 0 exactly when the block is all zeros |
| TarFormat.AsciiChecksum | lib_tar.c:77-84 | on an ASCII header the checksum equals the POSIX unsigned sum with the chksum field read as spaces |
| Paths.NameBoundIsPrefix | lib_tar.c:120 | `strncmp(name, path, strlen(name)) == 0` exactly when the name is a prefix of the path |
| Paths.StrnEq | lib_tar.c:270 | defines `strncmp(a, b, n) == 0` on NUL-free strings: the first `n` characters agree, a shorter string counting its terminator |
| Paths.PathBoundIsPrefix | lib_tar.c:270 | `strncmp(name, path, strlen(path)) == 0` exactly when the path is a prefix of the name |
| Paths.LastSlash | lib_tar.c:32-37 | defines the `lastBack` scan: the index of the last '/', or 0 with none |
| Paths.LinkDirLen | lib_tar.c:38 | defines the length of the directory part kept: one past the last '/', or 0 when that index is 0 |
| Paths.LinkPath | lib_tar.c:31-41 | defines the resolved path: the kept directory part of the symlink path followed by the link name |
| Paths.LastSlashIsLast | lib_tar.c:32-37 | the scan yields the index of the last '/' (no later '/'), or 0 when there is none |
| Paths.LastBack | lib_tar.c:276-281 | the `lastBack` loop computes the index of the last '/' |
| Paths.LinkPathResolves | lib_tar.c:31-41 | the target is the symlink path up to and including its last '/', followed by the link name; with no '/', or only a '/' at index 0, it is the bare link name |
| Paths.PathOfLink | lib_tar.c:31-44 | the buffer `pathoflink` builds holds the resolved path, of length `k + strlen(file)` |
| Paths.LinkPathNulFree | lib_tar.c:39-42 | resolving a NUL-free link name against a NUL-free path gives a NUL-free path |
| Paths.AllocatedLen | lib_tar.c:39 | defines the size `malloc` is asked for: the kept directory part, the link name and one more byte |
| Paths.TerminatorIndexAsWritten | lib_tar.c:42 | defines the index the terminator is written at, as written: the kept directory part plus the link name plus one |
| Paths.TerminatorOutOfBounds | lib_tar.c:39-42 | as written, the terminator index equals the allocation's size, one past its end, for every input |
| Paths.TerminatorOutOfBoundsExample | lib_tar.c:39-42 | for "dir/link" and "t", a 6-byte buffer is allocated and the terminator is written at index 6 |
| TarWalk.Block | lib_tar.c:69 | the header record read at a position is 512 bytes |
| TarWalk.DataBlocksIsCeiling | lib_tar.c:89-90 | the skipped block count is the ceiling of size/512 |
| TarWalk.DataBlocks | lib_tar.c:89-90 | defines `skip`: the full blocks of the size plus one for a partial block |
| TarWalk.NextHeader | lib_tar.c:89-91 | every step moves past the header, a whole block at least |
| TarWalk.ZeroBlockIsEnd | lib_tar.c:11-21 | an all-zero block is always reported as the end |
| TarWalk.AsciiEndIsZeroBlock | lib_tar.c:11-21 | on an ASCII block, the end test holds exactly when the block is all zeros |
| TarWalk.Headers | lib_tar.c:68-96 | the walk visits at least one header, every header lies inside the archive, and the block after the last one is the end |
| TarWalk.AtEnd | lib_tar.c:11-21 | defines `checkEnd`'s verdict: fewer than 512 bytes left, or the next block's wrapped signed sum is 0 |
| TarWalk.HeadersAreSteps | lib_tar.c:89-93 | each header after the first is one `skip` step after the header before it |
| TarWalk.HeadersNotAtEnd | lib_tar.c:93-96 | no header after the first is a block the end test accepts |
| TarWalk.HeadersAligned | lib_tar.c:89-91 | starting on a block boundary, every header visited lies on a block boundary |
| TarWalk.EndOfWalk | lib_tar.c:93 | the walk stops beyond its start, at a block the end test accepts |
| TarWalk.Matches | lib_tar.c:120 | defines the name test by bound: `strncmp` up to the stored name's length, or up to the path's length (lib_tar.c:185) |
| TarWalk.MatchesIsPrefix | lib_tar.c:150 | the matching rule by bound: name-length bound means name ⊑ path; path-length bound means path ⊑ name |
| TarWalk.FindFrom | lib_tar.c:115-127 | a hit is a matching header at or after the start; a miss stops at an end block |
| TarWalk.Lookup | lib_tar.c:111-127 | defines the shared lookup: the walk from offset 0 to the first matching header |
| TarWalk.FirstMatchIsFirst | lib_tar.c:115-120 | no header before the first match matches, and the first match does |
| TarWalk.FindFromHitsFirstMatch | lib_tar.c:115-127 | when some header matches, the lookup stops at the first one |
| TarWalk.FindFromMissesAtEnd | lib_tar.c:115-128 | when no header matches, the lookup ends at the walk's end |
| TarWalk.FindFromIsFirstMatch | lib_tar.c:115-128 | the lookup returns the first matching header in archive order, and otherwise the end |
| TarWalk.ExistsIffSomeHeader | lib_tar.c:110-129 | `exists` gives 1 exactly when some header's name is a prefix of the path, and 0 exactly when none is |
| TarWalk.ExistsResult | lib_tar.c:120-128 | defines `exists`'s result: 1 on a hit under the name-length bound, else 0 |
| TarWalk.TypeResult | lib_tar.c:150-163 | defines a type query's result: 1 when the first match's typeflag is in the set, else 0 |
| TarWalk.IsDirResult | lib_tar.c:150-163 | defines `is_dir`'s result: the name-length bound and `DIRTYPE` |
| TarWalk.IsFileResult | lib_tar.c:185-198 | defines `is_file`'s result: the path-length bound and `REGTYPE` or `AREGTYPE` |
| TarWalk.IsSymlinkResult | lib_tar.c:219-232 | defines `is_symlink`'s result: the path-length bound and `SYMTYPE` |
| TarWalk.TypeResultIsFirstMatch | lib_tar.c:150-155 | a type query gives 1 exactly when a first match exists and its typeflag is in the tested set |
| TarWalk.AbsentPath | lib_tar.c:110-233 | a path unrelated by prefix to every name gives 0 from all four queries |
| TarWalk.HeaderCode | lib_tar.c:73-86 | the per-header code is 0, -1, -2 or -3 |
| TarWalk.CheckFrom | lib_tar.c:68-96 | defines the validating walk: the first header with a nonzero code decides; otherwise one is counted per header until the end block |
| TarWalk.CStringStrnEq | lib_tar.c:73-74 | `strncmp` of a field against a NUL-free literal compares the first `n` bytes one by one |
| TarWalk.HeaderCodeMeaning | lib_tar.c:73-86 | -1 exactly on a bad magic (5 bytes); -2 exactly on good magic and bad version; -3 exactly on both good and a bad checksum; 0 exactly when all three hold |
| TarWalk.CheckFromEnds | lib_tar.c:68-96 | success counts at least one header and stops at an end block; failure names a header inside the archive with a nonzero code |
| TarWalk.VerdictCode | lib_tar.c:73-98 | defines `check_archive`'s return value: the count `n` on success, otherwise the failing header's code -1, -2 or -3 |
| TarWalk.FirstInvalidIsFirst | lib_tar.c:68-86 | every header before the first invalid one is valid, and that one is not |
| TarWalk.CheckFromIsFirstError | lib_tar.c:68-86 | when some header is invalid, the verdict is the first invalid header's code at that header |
| TarWalk.CheckFromCountsHeaders | lib_tar.c:66-98 | when every header is valid, the verdict is the number of headers walked and the walk's end |
| TarWalk.CheckFromCountOnlyIfValid | lib_tar.c:66-98 | a count is returned only when every header is valid |
| TarWalk.CheckArchiveResult | lib_tar.c:62-99 | `check_archive` returns a count of at least 1, equal to the number of headers, or -1, -2 or -3 |
| TarWalk.EmptyArchiveBadMagic | lib_tar.c:68-73 | an archive whose first block is zero gives -1 at offset 0 |
| TarWalk.KeepMeaning | lib_tar.c:285-296 | for a name shorter than its field, the depth test passes exactly when its last '/' is not deeper than `initBack`, or its name ends right after that '/'; writing also needs room in the array (`TarWalk.Admit`) |
| TarWalk.Keep | lib_tar.c:285-286 | defines `list`'s depth test on the raw header byte after the last '/' |
| TarWalk.KeepIsShallowOrDir | lib_tar.c:285-291 | for any name, a header that passes the depth test lies no deeper than `initBack` or ends right after its last '/' |
| TarWalk.Admit | lib_tar.c:282-296 | a name is written only when the array has room and the path is a prefix of the name |
| TarWalk.ListFrom | lib_tar.c:265-306 | a pass never shrinks what was already written, and never writes more than the caller's `*no_entries` |
| TarWalk.ListFromEnds | lib_tar.c:265-306 | a pass extends what was written. It ends at the end block, or at a matching SYMTYPE header whose target is `pathoflink(path, linkname)` |
| TarWalk.ListedArePrefixed | lib_tar.c:270-296 | every name a pass writes has the path as a prefix |
| TarWalk.Overlay | lib_tar.c:288-296 | defines the caller's `entries` after the writes: the written names in the first slots, the caller's contents after them, the length kept |
| TarWalk.OverlayMeaning | lib_tar.c:288 | slots below the count hold the names written, in archive order; the slots after them keep the caller's contents |
| TarWalk.OverlayPush | lib_tar.c:295-296 | writing `entries[c]` adds one name to the written prefix |
| TarWalk.ListSpec | lib_tar.c:258-309 | the caller's array keeps its length. The count is at most the caller's `*no_entries`. The result is 1, or 0 with a count of 0 |
| TarWalk.ListZeroOnlyAtLink | lib_tar.c:270-274 | `list` returns 0 only when its pass stopped at a matching symlink; a pass that reaches the end block gives 1 |
| TarWalk.ListSpecKeepsTail | lib_tar.c:287-294 | across any number of followed symlinks, slots at or beyond `*no_entries` are never written |
| TarWalk.ListedDepth | lib_tar.c:282-296 | every name a pass writes after the first lies no deeper than the first name's last '/', or ends right after its own last '/' |
| TarWalk.AdmitAfterFirst | lib_tar.c:282-296 | once a name is written, `initBack` stays fixed, and a header is written exactly when it matches, passes the depth test and the array has room |
| TarWalk.Selected | lib_tar.c:265-306 | reference selection over the walk's headers: each matching header that passes the depth test, in archive order, up to the first matching symlink |
| TarWalk.ListReference | lib_tar.c:258-306 | reference listing: nothing when no header matches, otherwise the selection relative to the first match, cut to `*no_entries` |
| TarWalk.ListFromTakesSelected | lib_tar.c:265-306 | after the first name, the pass writes exactly the selected names, cut to `*no_entries` |
| TarWalk.ListFromAtMatch | lib_tar.c:270-296 | from the first matching header, the pass writes the selection relative to that header's last '/' |
| TarWalk.ListFromSelects | lib_tar.c:265-306 | from any header before the first match, the pass writes the selection relative to the first match |
| TarWalk.ListPassIsReference | lib_tar.c:258-306 | the names a pass of `list` writes, in order, are exactly the reference listing |
| TarWalk.ListFromWithoutLink | lib_tar.c:265-306 | with no matching symlink among the headers, the pass ends at the walk's end |
| TarWalk.ListSpecIsReference | lib_tar.c:258-309 | with no matching symlink, `list` returns 1. It sets `*no_entries` to the reference listing's length, writes that listing at the front of the array and leaves the cursor at the walk's end |
| TarWalk.ListNothingMatched | lib_tar.c:300-308 | with no matching header, the pass writes nothing and ends at the walk's end, so `list` returns 1 with count 0 |
| TarWalk.ListFirstMatchWritten | lib_tar.c:282-296 | when the first match is not a symlink and the array has room, that header's name is written first |
| TarWalk.ListNothingWrittenBefore | lib_tar.c:270-305 | headers before the first match leave the pass unchanged |
| TarWalk.Locate | lib_tar.c:340-349 | the entry `read_file` reads is neither a directory nor a symlink |
| TarWalk.ReadOtherType | lib_tar.c:340-359 | a first match that is neither a directory nor a symlink is read whatever its type, and an offset within its size gives a read, not an error |
| TarWalk.ReadAt | lib_tar.c:350-359 | at most `*len` bytes are read, the remainder is non-negative, and a short read leaves nothing remaining; the only error is -2 |
| TarWalk.ReadSpec | lib_tar.c:330-369 | the only error codes are -1 and -2 |
| TarWalk.Delivered | lib_tar.c:358 | `read` delivers `n` bytes from the offset, or fewer when the archive ends first |
| TarWalk.ReadIsSlice | lib_tar.c:350-359 | `*len` becomes `min(*len, size - offset)`. The bytes are entry data `[offset, offset + *len)`. The return is `size - offset - *len` |
| TarWalk.ReadAtSize | lib_tar.c:351-359 | offset equal to the size returns 0 with `*len` 0; one byte further gives -2 |
| TarWalk.ReadChunksCompose | lib_tar.c:354-359 | two consecutive reads of `a` and `b` bytes deliver the same range, and leave the same remainder, as one read of `a + b` |
| LibTar.LookupPos | lib_tar.c:115-127 | defines where a lookup leaves the cursor: past the matching header, or at the end block |
| LibTar.VerdictPos | lib_tar.c:68-98 | defines where `check_archive` leaves the cursor: at the end block, or past the failing header |
| LibTar.PassPos | lib_tar.c:265-306 | defines where a pass of `list` leaves the cursor: at the end block, or past the symlink's header |
| LibTar.ReadPos | lib_tar.c:330-369 | defines where `read_file` leaves the cursor: after the delivered bytes, or where it stopped |
| LibTar.BlockChecksum | lib_tar.c:77-84 | the checksum loop computes the wrapped signed sum with the chksum bytes counted as spaces |
| LibTar.ValidateHeader | lib_tar.c:73-86 | the three checks return the header's code |
| LibTar.AdmitEntry | lib_tar.c:276-296 | the branches of `list` on a non-symlink header compute the admission decision and the next `initBack` |
| LibTar.Record | lib_tar.c:288-296 | storing a name extends the written prefix of the caller's array by that name |
| LibTar.Archive.ReadHeader | lib_tar.c:69 | reading a header returns the block at the cursor and advances it by 512 |
| LibTar.Archive.SkipData | lib_tar.c:89-91 | the cursor advances by `512 * ceil(size / 512)` |
| LibTar.Archive.ReadInto | lib_tar.c:358 | `dest` receives the delivered bytes and nothing beyond them; the cursor advances by their number |
| LibTar.Archive.CheckEnd | lib_tar.c:11-22 | the result is the end test at the cursor, and the cursor does not move |
| LibTar.Archive.CheckArchive | lib_tar.c:62-99 | the result and the final cursor are those of the validating walk |
| LibTar.Archive.FindHeader | lib_tar.c:115-127 | the loop finds the lookup's header, returns its block, and leaves the cursor after it or at the end |
| LibTar.Archive.Exists | lib_tar.c:110-129 | the result is `exists` of the first match under the name-length bound |
| LibTar.Archive.HasType | lib_tar.c:140-164 | the result is whether the first match's typeflag is in the set |
| LibTar.Archive.IsDir | lib_tar.c:140-164 | 1 exactly when the first match under the name-length bound is a `DIRTYPE` |
| LibTar.Archive.IsFile | lib_tar.c:175-199 | 1 exactly when the first match under the path-length bound is a `REGTYPE` or `AREGTYPE` |
| LibTar.Archive.IsSymlink | lib_tar.c:209-233 | 1 exactly when the first match under the path-length bound is a `SYMTYPE` |
| LibTar.Archive.ListPass | lib_tar.c:258-306 | one pass of the loop writes the pass's names over the caller's array, reports whether it stopped at a symlink (and that symlink's resolved target), and leaves the cursor where the pass ends |
| LibTar.Archive.List | lib_tar.c:258-309 | the return value, `*no_entries`, the array and the cursor are those of the listing, including the recursion on a symlink's target |
| LibTar.Archive.ReadFile | lib_tar.c:330-369 | on error: the code, `*len` unchanged and `dest` untouched. Otherwise: the remainder, the new `*len`, and `dest` starting with the delivered bytes and unchanged after them |

## Left out

- `tests.c` and `debug_dump` are a command-line harness and a hex dump. They are I/O with nothing to prove.
- File-descriptor semantics. The return values of `read` and `lseek` are ignored in lib_tar.c, and the model does not model them:
  - When fewer than 512 bytes remain at the cursor, that counts as the end of the archive. Short reads are not modelled.
  - `checkEnd`'s `lseek(-1024)` rewind after a short read of 1024 bytes near the end of file is not modelled.
  - Uninitialised buffer contents are not modelled.
  - The archive must hold one whole block, because every function reads its first header unconditionally.
- `read_file`'s final `read` is modelled as delivering the bytes that remain in the archive, at most `*len` of them.
- Heap ownership is not modelled: the `malloc` and `free` around `pathoflink` and the leak at lib_tar.c:272. Resolved paths are plain strings.
- The unterminated `memcpy` into `entries[c]` is not modelled. Each slot of `entries` is modelled as a string holding the name.
- `strtol` corner cases inside `TAR_INT` are not modelled: leading spaces, signs, overflow and non-octal junk. The decoded value is that of the leading octal digits, cut at the field's width.
- `strlen` running past an unterminated 100-byte name or linkname is not modelled: the string is cut at the field's end.
- Integer widths are not modelled: the `ssize_t` to `int` narrowing at lib_tar.c:346, the signed and unsigned mix at lib_tar.c:351, `long skip` and `size_t` offsets. Counts, sizes and offsets are mathematical naturals. Only the `uint` checksum wrap-around is modelled.
- The symlink recursion in `list` and `read_file` has no bound in lib_tar.c, so a cycle never terminates there. The model follows at most `fuel` symlinks. How deep a cycle runs before it stops is therefore not modelled.
- LibTar.Archive.List: when out of fuel it returns 0 with count 0. Names that the pass wrote before the symlink stay in the array.
- LibTar.Archive.ReadFile: when out of fuel it returns -1 with `*len` unchanged.

## Findings

| source | as written | input that shows it | evidently intended | confidence | as-written member | corrected member |
|---|---|---|---|---|---|---|
| lib_tar.c:42 | `pathoflink` allocates `lastBack + strlen(file) + 1` bytes. It then writes the terminator at index `lastBack + strlen(file) + 1`, one past the end of the allocation, and leaves the last allocated byte unwritten. | sympath "dir/link", file "t": a 6-byte buffer, with the terminator written at index 6 | terminator at index `lastBack + strlen(file)`, giving the string "dir/t" | not executed | Paths.TerminatorOutOfBoundsExample | Paths.PathOfLink |
