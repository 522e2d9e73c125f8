/** lib_tar.c's public functions over an archive behind a file descriptor: the archive's
    bytes are immutable, the descriptor's offset is the field `pos`, and every function
    moves it exactly as the C code's `read` and `lseek` calls do. Each method is proved
    against the pure walk of module TarWalk. */
module LibTar {
  import opened TarFormat
  import opened Paths
  import opened TarWalk

  /** Where the cursor rests after a lookup: just past the matching header, or at the
      terminator block the walk stopped on. */
  function LookupPos(f: Find): nat {
    match f
    case Hit(q) => q + BLOCK
    case Miss(e) => e
  }

  /** Where check_archive leaves the cursor. */
  function VerdictPos(v: Verdict): nat {
    match v
    case Count(_, e) => e
    case Bad(_, at) => at + BLOCK
  }

  /** Where read_file leaves the cursor: after the bytes it read, or where it gave up. */
  function ReadPos(data: seq<byte>, r: ReadResult): nat {
    match r
    case Read(_, n, start) => start + |Delivered(data, start, n)|
    case ReadError(_, stop) => stop
  }

  /** Where a pass of list leaves the cursor: at the terminator, or just past the
      symlink's header. */
  function PassPos(r: Pass): nat {
    match r
    case Done(_, e) => e
    case Link(_, _, q) => q + BLOCK
  }

  /** The wrapped, signed-`char` checksum of a header record (lib_tar.c:77-84): every
      byte is added as it reads from the `char` buffer, the eight chksum bytes as spaces. */
  method BlockChecksum(buf: seq<byte>) returns (checksum: int)
    requires |buf| == BLOCK
    ensures checksum == Checksum(buf)
  {
    checksum := 0;
    var i := 0;
    while i < BLOCK
      invariant 0 <= i <= BLOCK
      invariant checksum == UintSum(Blanked(buf)[..i])
    {
      assert Blanked(buf)[..i + 1][..i] == Blanked(buf)[..i];
      if CHKSUM_OFF <= i < CHKSUM_OFF + CHKSUM_LEN {
        checksum := (checksum + ' ' as int) % UINT_MOD;
      } else {
        checksum := (checksum + SignedChar(buf[i])) % UINT_MOD;
      }
      i := i + 1;
    }
    assert Blanked(buf)[..BLOCK] == Blanked(buf);
  }

  /** The three checks check_archive makes on each header (lib_tar.c:73-86), in order:
      magic, version, then the checksum. */
  method ValidateHeader(buf: seq<byte>) returns (code: int)
    requires |buf| == BLOCK
    ensures code == HeaderCode(buf)
  {
    if !StrnEq(Magic(buf), TMAGIC, TMAGLEN - 1) {
      return -1;
    }
    if !StrnEq(Version(buf), TVERSION, TVERSLEN) {
      return -2;
    }
    var checksum := BlockChecksum(buf);
    if Chksum(buf) != checksum {
      return -3;
    }
    return 0;
  }

  /** The per-header decision of list (lib_tar.c:270-296) for a header that is not a
      matching symlink: a matching name sets `initBack` from the first one written, and
      is written when the array has room and it is not nested deeper than that, unless
      it is a directory entry whose name ends at its last '/'. */
  method AdmitEntry(buf: seq<byte>, path: string, count: nat, cap: nat, initBack: nat)
      returns (write: bool, initBack': nat)
    requires |buf| == BLOCK
    ensures Admission(write, initBack') == Admit(buf, path, count, cap, initBack)
  {
    var name := Name(buf);
    write := false;
    initBack' := initBack;
    if StrnEq(name, path, |path|) {
      DecodedStrings(buf);
      var lastBack := LastBack(name);
      if count == 0 {
        initBack' := lastBack;
      }
      if lastBack > initBack' {
        if buf[NAME_OFF + lastBack + 1] == 0 {
          write := count < cap;
        }
      } else {
        write := count < cap;
      }
    }
  }

  /** The copy of a name into `entries[c]` in list, as one more name written over the
      caller's array `a`. */
  method Record(entries: array<string>, ghost a: seq<string>, ghost w: seq<string>, c: nat, name: string)
    requires c == |w| < entries.Length == |a| && entries[..] == Overlay(a, w)
    modifies entries
    ensures entries[..] == Overlay(a, w + [name])
  {
    OverlayPush(a, w, name);
    entries[c] := name;
  }

  /** An open archive: its bytes and the descriptor's current offset. */
  class Archive {
    const data: seq<byte>
    var pos: nat

    /** A descriptor opened on `data`, at offset 0. */
    constructor (data: seq<byte>)
      ensures this.data == data && pos == 0
    {
      this.data := data;
      pos := 0;
    }

    /** `read(fd, buf, 512)` of a header record that lies inside the archive. */
    method ReadHeader() returns (buf: seq<byte>)
      requires pos + BLOCK <= |data|
      modifies this
      ensures buf == Block(data, old(pos)) && pos == old(pos) + BLOCK
    {
      buf := data[pos..pos + BLOCK];
      pos := pos + BLOCK;
    }

    /** `lseek(fd, skip * 512, SEEK_CUR)` past the data blocks of the header just read. */
    method SkipData(buf: seq<byte>)
      requires |buf| == BLOCK
      modifies this
      ensures pos == old(pos) + BLOCK * DataBlocks(Size(buf))
    {
      var size := Size(buf);
      var skip := size / BLOCK;
      if size % BLOCK != 0 {
        skip := skip + 1;
      }
      pos := pos + skip * BLOCK;
    }

    /** `read(fd, dest, n)` into the first bytes of `dest`: a short read at the end of the
        archive delivers fewer bytes, and the rest of `dest` is left alone. */
    method ReadInto(dest: array<byte>, n: nat) returns (k: nat)
      requires n <= dest.Length
      modifies this, dest
      ensures k == |Delivered(data, old(pos), n)| && pos == old(pos) + k
      ensures dest[..k] == Delivered(data, old(pos), n) && dest[k..] == old(dest[k..])
    {
      var p := pos;
      ghost var c := Delivered(data, p, n);
      k := if p >= |data| then 0 else Min(n, |data| - p);
      var i := 0;
      while i < k
        invariant 0 <= i <= k
        invariant dest[..i] == c[..i] && dest[i..] == old(dest[i..])
      {
        dest[i] := data[p + i];
        i := i + 1;
      }
      assert c[..k] == c;
      pos := p + k;
    }

    /** checkEnd (lib_tar.c:11-22): whether the next block sums to zero. It reads ahead
        and seeks back, so the cursor does not move; with less than a block left the
        archive is over. */
    method CheckEnd() returns (end: bool)
      ensures end == AtEnd(data, pos)
    {
      if pos + BLOCK > |data| {
        return true;
      }
      var sum := 0;
      var i := 0;
      while i < BLOCK
        invariant 0 <= i <= BLOCK
        invariant sum == UintSum(data[pos..pos + i])
      {
        assert data[pos..pos + i + 1][..i] == data[pos..pos + i];
        sum := (sum + SignedChar(data[pos + i])) % UINT_MOD;
        i := i + 1;
      }
      end := sum == 0;
    }

    /** check_archive (lib_tar.c:62-99): the number of headers when all are valid, else
        the code of the first invalid one. */
    method CheckArchive() returns (r: int)
      requires |data| >= BLOCK
      modifies this
      ensures r == VerdictCode(CheckFrom(data, 0)) && pos == VerdictPos(CheckFrom(data, 0))
    {
      pos := 0;
      var n := 0;
      var end := false;
      while !end
        invariant !end ==> pos + BLOCK <= |data| && CheckFrom(data, 0) == Prepend(n, CheckFrom(data, pos))
        invariant end ==> CheckFrom(data, 0) == Count(n, pos)
        decreases if end then 0 else |data| - pos + 1
      {
        ghost var p := pos;
        CheckFromStep(data, p);
        var buf := ReadHeader();
        assert buf == Block(data, p);
        var code := ValidateHeader(buf);
        if code != 0 {
          assert CheckFrom(data, 0) == Bad(code, p);
          return code;
        }
        SkipData(buf);
        assert pos == NextHeader(data, p);
        end := CheckEnd();
        PrependTwice(n, 1, CheckFrom(data, p));
        n := n + 1;
      }
      return n;
    }

    /** The walk every lookup runs, rewound to the start: read a header, stop at the
        first one whose name matches `path` under `bound`, else skip its data and stop
        at the terminator. On a hit the header record is returned. */
    method FindHeader(path: string, bound: Bound) returns (found: bool, buf: seq<byte>)
      requires |data| >= BLOCK && '\0' !in path
      modifies this
      ensures found == Lookup(data, path, bound).Hit? && pos == LookupPos(Lookup(data, path, bound))
      ensures found ==> buf == Block(data, Lookup(data, path, bound).at)
    {
      pos := 0;
      var end := false;
      buf := [];
      while !end
        invariant !end ==> pos + BLOCK <= |data| && Lookup(data, path, bound) == FindFrom(data, pos, path, bound)
        invariant end ==> Lookup(data, path, bound) == Miss(pos)
        decreases if end then 0 else |data| - pos + 1
      {
        ghost var p := pos;
        FindFromStep(data, p, path, bound);
        buf := ReadHeader();
        assert buf == Block(data, p);
        if Matches(Name(buf), path, bound) {
          return true, buf;
        }
        SkipData(buf);
        assert pos == NextHeader(data, p);
        end := CheckEnd();
      }
      found := false;
    }

    /** exists (lib_tar.c:110-129). */
    method Exists(path: string) returns (r: int)
      requires |data| >= BLOCK && '\0' !in path
      modifies this
      ensures r == ExistsResult(data, path) && pos == LookupPos(Lookup(data, path, NameLength))
    {
      var found, _ := FindHeader(path, NameLength);
      r := if found then 1 else 0;
    }

    /** The type test shared by is_dir, is_file and is_symlink. */
    method HasType(path: string, bound: Bound, types: set<char>) returns (r: int)
      requires |data| >= BLOCK && '\0' !in path
      modifies this
      ensures r == TypeResult(data, path, bound, types) && pos == LookupPos(Lookup(data, path, bound))
    {
      var found, buf := FindHeader(path, bound);
      r := if found && Typeflag(buf) in types then 1 else 0;
    }

    /** is_dir (lib_tar.c:140-164). */
    method IsDir(path: string) returns (r: int)
      requires |data| >= BLOCK && '\0' !in path
      modifies this
      ensures r == IsDirResult(data, path) && pos == LookupPos(Lookup(data, path, NameLength))
    {
      r := HasType(path, NameLength, {DIRTYPE});
    }

    /** is_file (lib_tar.c:175-199). */
    method IsFile(path: string) returns (r: int)
      requires |data| >= BLOCK && '\0' !in path
      modifies this
      ensures r == IsFileResult(data, path) && pos == LookupPos(Lookup(data, path, PathLength))
    {
      r := HasType(path, PathLength, {REGTYPE, AREGTYPE});
    }

    /** is_symlink (lib_tar.c:209-233). */
    method IsSymlink(path: string) returns (r: int)
      requires |data| >= BLOCK && '\0' !in path
      modifies this
      ensures r == IsSymlinkResult(data, path) && pos == LookupPos(Lookup(data, path, PathLength))
    {
      r := HasType(path, PathLength, {SYMTYPE});
    }

    /** One pass of list's loop (lib_tar.c:259-305) over the headers from the start:
        each matching name is admitted or not and written at the next free index, until
        the walk ends or a matching symlink stops it with the target resolved. */
    method ListPass(path: string, entries: array<string>, noEntries: nat) returns (link: bool, target: string, c: nat)
      requires |data| >= BLOCK && noEntries <= entries.Length
      modifies this, entries
      ensures var r := ListFrom(data, 0, path, noEntries, [], 0);
        link == r.Link? && c == |r.listed| && entries[..] == Overlay(old(entries[..]), r.listed) &&
        pos == PassPos(r) && (link ==> target == r.target)
    {
      pos := 0;
      var end := false;
      var initBack := 0;
      c := 0;
      ghost var w: seq<string> := [];
      while !end
        invariant |w| == c <= noEntries && entries[..] == Overlay(old(entries[..]), w)
        invariant !end ==> (pos + BLOCK <= |data| &&
          ListFrom(data, 0, path, noEntries, [], 0) == ListFrom(data, pos, path, noEntries, w, initBack))
        invariant end ==> ListFrom(data, 0, path, noEntries, [], 0) == Done(w, pos)
        decreases if end then 0 else |data| - pos + 1
      {
        ghost var p := pos;
        ListFromStep(data, p, path, noEntries, w, initBack);
        var buf := ReadHeader();
        assert buf == Block(data, p);
        if StrnEq(Name(buf), path, |path|) && Typeflag(buf) == SYMTYPE {
          target := PathOfLink(path, Linkname(buf));
          return true, target, c;
        }
        ghost var a := Admit(buf, path, c, noEntries, initBack);
        ghost var w' := if a.write then w + [NameAt(data, p)] else w;
        var write;
        write, initBack := AdmitEntry(buf, path, c, noEntries, initBack);
        if write {
          Record(entries, old(entries[..]), w, c, Name(buf));
          w := w + [Name(buf)];
          c := c + 1;
        }
        assert w == w' && initBack == a.initBack;
        SkipData(buf);
        assert pos == NextHeader(data, p);
        end := CheckEnd();
      }
      target := [];
      link := false;
    }

    /** list (lib_tar.c:258-309), with `noEntries` the caller's `*no_entries` and
        `count` the value written back to it; at most `fuel` symlinks are followed. */
    method List(path: string, entries: array<string>, noEntries: nat, fuel: nat) returns (ret: int, count: nat)
      requires |data| >= BLOCK && '\0' !in path && noEntries <= entries.Length
      modifies this, entries
      ensures var l := ListSpec(data, path, noEntries, old(entries[..]), fuel);
        ret == l.ret && count == l.count && entries[..] == l.entries && pos == l.pos
      decreases fuel
    {
      var link, target, c := ListPass(path, entries, noEntries);
      if !link {
        return 1, c;
      }
      if fuel == 0 {
        return 0, 0;
      }
      ghost var r := ListFrom(data, 0, path, noEntries, [], 0);
      ListFromEnds(data, 0, path, noEntries, [], 0);
      DecodedStrings(Block(data, r.at));
      LinkPathNulFree(path, LinknameAt(data, r.at));
      ret, count := List(target, entries, noEntries, fuel - 1);
    }

    /** read_file (lib_tar.c:330-369), with `len` the caller's `*len` and `newLen` the
        value written back to it; at most `fuel` symlinks are followed. */
    method ReadFile(path: string, offset: nat, dest: array<byte>, len: nat, fuel: nat) returns (ret: int, newLen: nat)
      requires |data| >= BLOCK && '\0' !in path && len <= dest.Length
      modifies this, dest
      ensures var r := ReadSpec(data, path, offset, len, fuel);
        pos == ReadPos(data, r) &&
        match r
        case ReadError(code, _) => ret == code && newLen == len && dest[..] == old(dest[..])
        case Read(remaining, n, start) =>
          (var c := Delivered(data, start, n);
           ret == remaining && newLen == n && dest[..|c|] == c && dest[|c|..] == old(dest[|c|..]))
      decreases fuel
    {
      var found, buf := FindHeader(path, PathLength);
      if !found {
        return -1, len;
      }
      if Typeflag(buf) == DIRTYPE {
        return -1, len;
      }
      if Typeflag(buf) == SYMTYPE {
        if fuel == 0 {
          return -1, len;
        }
        DecodedStrings(buf);
        LinkPathNulFree(path, Linkname(buf));
        var newPath := PathOfLink(path, Linkname(buf));
        ret, newLen := ReadFile(newPath, offset, dest, len, fuel - 1);
        return;
      }
      var sz := Size(buf);
      if offset > sz {
        return -2, len;
      }
      pos := pos + offset;
      newLen := len;
      if sz - offset < newLen {
        newLen := sz - offset;
      }
      var _ := ReadInto(dest, newLen);
      ret := (sz - offset) - newLen;
    }
  }
}
