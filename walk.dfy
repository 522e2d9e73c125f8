/** The header walk every public function of lib_tar.c runs, written as a pure fold
    over header positions in an immutable archive: read the 512-byte header at a
    position, act on it, skip its data blocks, stop when the next block is the
    terminator. The class in module LibTar runs the same walk with a cursor. */
module TarWalk {
  import opened TarFormat
  import opened Paths

  /** The header record at position `p`. */
  function Block(data: seq<byte>, p: nat): (b: seq<byte>)
    requires p + BLOCK <= |data|
    ensures |b| == BLOCK
  {
    data[p..p + BLOCK]
  }

  // The fields of the header at `p`
  function NameAt(data: seq<byte>, p: nat): string
    requires p + BLOCK <= |data|
  {
    Name(Block(data, p))
  }

  function SizeAt(data: seq<byte>, p: nat): nat
    requires p + BLOCK <= |data|
  {
    Size(Block(data, p))
  }

  function TypeflagAt(data: seq<byte>, p: nat): char
    requires p + BLOCK <= |data|
  {
    Typeflag(Block(data, p))
  }

  function LinknameAt(data: seq<byte>, p: nat): string
    requires p + BLOCK <= |data|
  {
    Linkname(Block(data, p))
  }

  /** `skip`: the number of 512-byte data blocks that follow a header of this size. */
  function DataBlocks(size: nat): nat {
    size / BLOCK + (if size % BLOCK != 0 then 1 else 0)
  }

  /** `skip` is the ceiling of size / 512: the fewest whole blocks that hold the data. */
  lemma DataBlocksIsCeiling(size: nat)
    ensures BLOCK * DataBlocks(size) >= size
    ensures DataBlocks(size) > 0 ==> BLOCK * (DataBlocks(size) - 1) < size
  {
  }

  /** Where the walk reads the header after the one at `p`. */
  function NextHeader(data: seq<byte>, p: nat): (q: nat)
    requires p + BLOCK <= |data|
    ensures q >= p + BLOCK
  {
    p + BLOCK + BLOCK * DataBlocks(SizeAt(data, p))
  }

  /** checkEnd's verdict at `p`: fewer than 512 bytes are left, or the next 512 bytes
      sum to zero (with lib_tar.c's signed-char, wrapping sum). */
  predicate AtEnd(data: seq<byte>, p: nat) {
    p + BLOCK > |data| || UintSum(data[p..p + BLOCK]) == 0
  }

  /** An all-zero block is always reported as the end. */
  lemma ZeroBlockIsEnd(data: seq<byte>, p: nat)
    requires p + BLOCK <= |data|
    requires forall i :: p <= i < p + BLOCK ==> data[i] == 0
    ensures AtEnd(data, p)
  {
    ZeroBlockSum(data[p..p + BLOCK]);
  }

  /** On an ASCII block checkEnd reports the end exactly for the all-zero block. */
  lemma AsciiEndIsZeroBlock(data: seq<byte>, p: nat)
    requires p + BLOCK <= |data| && IsAscii(data[p..p + BLOCK])
    ensures AtEnd(data, p) <==> forall i :: p <= i < p + BLOCK ==> data[i] == 0
  {
    var b := data[p..p + BLOCK];
    AsciiBlockSum(b);
    assert forall i :: p <= i < p + BLOCK ==> data[i] == b[i - p];
  }

  /** The positions of all headers the walk reads when it starts at `p`. */
  function Headers(data: seq<byte>, p: nat): (hs: seq<nat>)
    requires p + BLOCK <= |data|
    ensures |hs| >= 1 && hs[0] == p
    ensures forall i :: 0 <= i < |hs| ==> p <= hs[i] && hs[i] + BLOCK <= |data|
    ensures AtEnd(data, NextHeader(data, hs[|hs| - 1]))
    decreases |data| - p
  {
    var q := NextHeader(data, p);
    if AtEnd(data, q) then [p] else [p] + Headers(data, q)
  }

  /** Unfolding the walk by one header. */
  lemma HeadersStep(data: seq<byte>, p: nat)
    requires p + BLOCK <= |data|
    ensures AtEnd(data, NextHeader(data, p)) ==> Headers(data, p) == [p]
    ensures !AtEnd(data, NextHeader(data, p)) ==> Headers(data, p) == [p] + Headers(data, NextHeader(data, p))
  {
  }

  /** Consecutive headers of the walk are one step apart. */
  lemma {:induction false} HeadersAreSteps(data: seq<byte>, p: nat)
    requires p + BLOCK <= |data|
    ensures var hs := Headers(data, p);
      forall i :: 0 <= i < |hs| - 1 ==> hs[i + 1] == NextHeader(data, hs[i])
    decreases |data| - p
  {
    var q := NextHeader(data, p);
    HeadersStep(data, p);
    if !AtEnd(data, q) {
      HeadersAreSteps(data, q);
      var hs := Headers(data, p);
      var ht := Headers(data, q);
      forall i | 0 <= i < |hs| - 1
        ensures hs[i + 1] == NextHeader(data, hs[i])
      {
        assert hs[i + 1] == ht[i];
        if i > 0 {
          assert hs[i] == ht[i - 1];
        }
      }
    }
  }

  /** No header after the first is a block the end test accepts. */
  lemma {:induction false} HeadersNotAtEnd(data: seq<byte>, p: nat)
    requires p + BLOCK <= |data|
    ensures var hs := Headers(data, p);
      forall i :: 0 < i < |hs| ==> !AtEnd(data, hs[i])
    decreases |data| - p
  {
    var q := NextHeader(data, p);
    HeadersStep(data, p);
    if !AtEnd(data, q) {
      HeadersNotAtEnd(data, q);
      var hs := Headers(data, p);
      var ht := Headers(data, q);
      assert hs[1..] == ht;
      assert forall j :: 0 <= j < |ht| ==> !AtEnd(data, ht[j]) by {
        assert ht[0] == q;
      }
    }
  }

  /** The first header is read unconditionally at 0, and every header position is a
      whole number of blocks into the archive. */
  lemma {:induction false} HeadersAligned(data: seq<byte>, p: nat)
    requires p + BLOCK <= |data| && p % BLOCK == 0
    ensures forall i :: 0 <= i < |Headers(data, p)| ==> Headers(data, p)[i] % BLOCK == 0
    decreases |data| - p
  {
    var q := NextHeader(data, p);
    if !AtEnd(data, q) {
      HeadersAligned(data, q);
    }
  }

  /** The position at which a full walk from `p` stops: the block checkEnd reports
      after the last header. */
  function EndOfWalk(data: seq<byte>, p: nat): (e: nat)
    requires p + BLOCK <= |data|
    ensures p < e && AtEnd(data, e)
    decreases |data| - p
  {
    var q := NextHeader(data, p);
    if AtEnd(data, q) then q else EndOfWalk(data, q)
  }

  // ---------------------------------------------------------------------------
  // Lookup: the first header whose name matches the query path

  /** The two `strncmp` bounds lib_tar.c uses: `strlen(a_header->name)` in exists and
      is_dir, `strlen(path)` in is_file, is_symlink, list and read_file. */
  datatype Bound = NameLength | PathLength

  predicate Matches(name: string, path: string, bound: Bound) {
    match bound
    case NameLength => StrnEq(name, path, |name|)
    case PathLength => StrnEq(name, path, |path|)
  }

  /** Name-bounded, a header matches when its name is a prefix of the query path;
      path-bounded, when the query path is a prefix of its name. */
  lemma MatchesIsPrefix(name: string, path: string, bound: Bound)
    ensures bound == NameLength ==> (Matches(name, path, bound) <==> IsPrefix(name, path))
    ensures bound == PathLength ==> (Matches(name, path, bound) <==> IsPrefix(path, name))
  {
    NameBoundIsPrefix(name, path);
    PathBoundIsPrefix(name, path);
  }

  predicate HeaderMatches(data: seq<byte>, q: nat, path: string, bound: Bound) {
    q + BLOCK <= |data| && Matches(NameAt(data, q), path, bound)
  }

  /** Where a lookup stops: at a matching header, or at the terminator. */
  datatype Find = Hit(at: nat) | Miss(end: nat)

  /** The walk from `p` until the first header that matches. */
  function FindFrom(data: seq<byte>, p: nat, path: string, bound: Bound): (r: Find)
    requires p + BLOCK <= |data|
    ensures r.Hit? ==> p <= r.at && HeaderMatches(data, r.at, path, bound)
    ensures r.Miss? ==> p < r.end && AtEnd(data, r.end)
    decreases |data| - p
  {
    if Matches(NameAt(data, p), path, bound) then Hit(p)
    else
      var q := NextHeader(data, p);
      if AtEnd(data, q) then Miss(q) else FindFrom(data, q, path, bound)
  }

  /** A lookup rewinds to the start of the archive. */
  function Lookup(data: seq<byte>, path: string, bound: Bound): Find
    requires |data| >= BLOCK
  {
    FindFrom(data, 0, path, bound)
  }

  /** The reference definition: the index of the first header in `hs` that matches,
      or `|hs|` when none does. */
  function FirstMatch(data: seq<byte>, hs: seq<nat>, path: string, bound: Bound): (i: nat)
    ensures i <= |hs|
  {
    if hs == [] || HeaderMatches(data, hs[0], path, bound) then 0
    else 1 + FirstMatch(data, hs[1..], path, bound)
  }

  /** No header before the first match matches, and the first match does. */
  lemma {:induction false} FirstMatchIsFirst(data: seq<byte>, hs: seq<nat>, path: string, bound: Bound)
    ensures var i := FirstMatch(data, hs, path, bound);
      NoMatchBefore(data, hs, i, path, bound) && (i < |hs| ==> HeaderMatches(data, hs[i], path, bound))
  {
    if hs != [] && !HeaderMatches(data, hs[0], path, bound) {
      FirstMatchIsFirst(data, hs[1..], path, bound);
      forall j | 0 < j < FirstMatch(data, hs, path, bound) ensures !HeaderMatches(data, hs[j], path, bound) {
        assert hs[j] == hs[1..][j - 1];
      }
    }
  }

  /** No header among the first `i` positions of `hs` matches. */
  predicate NoMatchBefore(data: seq<byte>, hs: seq<nat>, i: nat, path: string, bound: Bound)
    requires i <= |hs|
  {
    forall j :: 0 <= j < i ==> !HeaderMatches(data, hs[j], path, bound)
  }

  /** Unfolding a lookup by one header. */
  lemma FindFromStep(data: seq<byte>, p: nat, path: string, bound: Bound)
    requires p + BLOCK <= |data|
    ensures HeaderMatches(data, p, path, bound) ==> FindFrom(data, p, path, bound) == Hit(p)
    ensures !HeaderMatches(data, p, path, bound) && AtEnd(data, NextHeader(data, p)) ==>
      FindFrom(data, p, path, bound) == Miss(NextHeader(data, p))
    ensures !HeaderMatches(data, p, path, bound) && !AtEnd(data, NextHeader(data, p)) ==>
      FindFrom(data, p, path, bound) == FindFrom(data, NextHeader(data, p), path, bound)
  {
  }

  /** A lookup stops at the first header of the walk that matches. */
  lemma {:induction false} FindFromHitsFirstMatch(data: seq<byte>, p: nat, path: string, bound: Bound)
    requires p + BLOCK <= |data|
    ensures var hs := Headers(data, p); var i := FirstMatch(data, hs, path, bound);
      i < |hs| ==> FindFrom(data, p, path, bound) == Hit(hs[i])
    decreases |data| - p
  {
    var hs := Headers(data, p);
    var q := NextHeader(data, p);
    HeadersStep(data, p);
    FindFromStep(data, p, path, bound);
    if HeaderMatches(data, p, path, bound) {
      assert FirstMatch(data, hs, path, bound) == 0;
    } else if AtEnd(data, q) {
      assert hs[1..] == [];
      assert FirstMatch(data, hs, path, bound) == 1;
    } else {
      var ts := Headers(data, q);
      assert hs[1..] == ts;
      var k := FirstMatch(data, ts, path, bound);
      assert FirstMatch(data, hs, path, bound) == k + 1;
      FindFromHitsFirstMatch(data, q, path, bound);
      if k < |ts| {
        assert hs[k + 1] == ts[k];
        assert FindFrom(data, p, path, bound) == Hit(ts[k]);
      } else {
        assert k + 1 == |hs|;
      }
    }
  }

  /** A lookup misses only when no header of the walk matches, at the position where
      the walk ends. */
  lemma {:induction false} FindFromMissesAtEnd(data: seq<byte>, p: nat, path: string, bound: Bound)
    requires p + BLOCK <= |data|
    ensures var hs := Headers(data, p);
      FirstMatch(data, hs, path, bound) == |hs| ==> FindFrom(data, p, path, bound) == Miss(EndOfWalk(data, p))
    decreases |data| - p
  {
    var hs := Headers(data, p);
    var q := NextHeader(data, p);
    HeadersStep(data, p);
    FindFromStep(data, p, path, bound);
    if HeaderMatches(data, p, path, bound) {
      assert FirstMatch(data, hs, path, bound) == 0;
    } else if AtEnd(data, q) {
      assert hs[1..] == [];
      assert FirstMatch(data, hs, path, bound) == 1;
    } else {
      var ts := Headers(data, q);
      assert hs[1..] == ts;
      assert FirstMatch(data, hs, path, bound) == FirstMatch(data, ts, path, bound) + 1;
      FindFromMissesAtEnd(data, q, path, bound);
      assert EndOfWalk(data, p) == EndOfWalk(data, q);
    }
  }

  /** Both halves: the lookup is the first match of the walk, or a miss at its end. */
  lemma FindFromIsFirstMatch(data: seq<byte>, p: nat, path: string, bound: Bound)
    requires p + BLOCK <= |data|
    ensures var hs := Headers(data, p); var i := FirstMatch(data, hs, path, bound);
      FindFrom(data, p, path, bound) == if i < |hs| then Hit(hs[i]) else Miss(EndOfWalk(data, p))
  {
    FindFromHitsFirstMatch(data, p, path, bound);
    FindFromMissesAtEnd(data, p, path, bound);
  }

  // ---------------------------------------------------------------------------
  // exists, is_dir, is_file, is_symlink

  function ExistsResult(data: seq<byte>, path: string): int
    requires |data| >= BLOCK
  {
    if Lookup(data, path, NameLength).Hit? then 1 else 0
  }

  /** 1 when the first header whose name satisfies `bound` has a type in `types`. */
  function TypeResult(data: seq<byte>, path: string, bound: Bound, types: set<char>): int
    requires |data| >= BLOCK
  {
    match Lookup(data, path, bound)
    case Hit(q) => if TypeflagAt(data, q) in types then 1 else 0
    case Miss(_) => 0
  }

  function IsDirResult(data: seq<byte>, path: string): int
    requires |data| >= BLOCK
  {
    TypeResult(data, path, NameLength, {DIRTYPE})
  }

  function IsFileResult(data: seq<byte>, path: string): int
    requires |data| >= BLOCK
  {
    TypeResult(data, path, PathLength, {REGTYPE, AREGTYPE})
  }

  function IsSymlinkResult(data: seq<byte>, path: string): int
    requires |data| >= BLOCK
  {
    TypeResult(data, path, PathLength, {SYMTYPE})
  }

  /** exists returns 1 exactly when some header of the archive has a name that is a
      prefix of the query path, and 0 otherwise. */
  lemma ExistsIffSomeHeader(data: seq<byte>, path: string)
    requires |data| >= BLOCK
    ensures ExistsResult(data, path) == 1 <==>
      exists q :: q in Headers(data, 0) && IsPrefix(NameAt(data, q), path)
    ensures ExistsResult(data, path) == 0 <==>
      forall q :: q in Headers(data, 0) ==> !IsPrefix(NameAt(data, q), path)
  {
    var hs := Headers(data, 0);
    var i := FirstMatch(data, hs, path, NameLength);
    FindFromIsFirstMatch(data, 0, path, NameLength);
    FirstMatchIsFirst(data, hs, path, NameLength);
    if i < |hs| {
      MatchesIsPrefix(NameAt(data, hs[i]), path, NameLength);
      assert hs[i] in hs;
    } else {
      forall q | q in hs ensures !IsPrefix(NameAt(data, q), path) {
        var k :| 0 <= k < |hs| && hs[k] == q;
        assert !HeaderMatches(data, hs[k], path, NameLength);
        MatchesIsPrefix(NameAt(data, q), path, NameLength);
      }
    }
  }

  /** A type test returns 1 exactly when the first matching header of the walk has one
      of the tested types: no later header can change the answer. */
  lemma TypeResultIsFirstMatch(data: seq<byte>, path: string, bound: Bound, types: set<char>)
    requires |data| >= BLOCK
    ensures var hs := Headers(data, 0); var i := FirstMatch(data, hs, path, bound);
      TypeResult(data, path, bound, types) == 1 <==> i < |hs| && TypeflagAt(data, hs[i]) in types
  {
    FindFromIsFirstMatch(data, 0, path, bound);
  }

  /** A path that no header name is a prefix of, and that is a prefix of no header name,
      is reported as absent by all four queries. */
  lemma AbsentPath(data: seq<byte>, path: string)
    requires |data| >= BLOCK
    requires forall q :: q in Headers(data, 0) ==>
      !IsPrefix(NameAt(data, q), path) && !IsPrefix(path, NameAt(data, q))
    ensures ExistsResult(data, path) == 0 && IsDirResult(data, path) == 0
    ensures IsFileResult(data, path) == 0 && IsSymlinkResult(data, path) == 0
  {
    var hs := Headers(data, 0);
    var i := FirstMatch(data, hs, path, NameLength);
    var k := FirstMatch(data, hs, path, PathLength);
    FindFromIsFirstMatch(data, 0, path, NameLength);
    FindFromIsFirstMatch(data, 0, path, PathLength);
    if i < |hs| {
      assert hs[i] in hs;
      MatchesIsPrefix(NameAt(data, hs[i]), path, NameLength);
    }
    if k < |hs| {
      assert hs[k] in hs;
      MatchesIsPrefix(NameAt(data, hs[k]), path, PathLength);
    }
  }

  // ---------------------------------------------------------------------------
  // check_archive

  /** Per header, first failure wins: -1 bad magic, -2 bad version, -3 bad checksum. */
  function HeaderCode(block: seq<byte>): (code: int)
    requires |block| == BLOCK
    ensures -3 <= code <= 0
  {
    if !StrnEq(Magic(block), TMAGIC, TMAGLEN - 1) then -1
    else if !StrnEq(Version(block), TVERSION, TVERSLEN) then -2
    else if Chksum(block) != Checksum(block) then -3
    else 0
  }

  /** `strncmp(field, lit, n) == 0` on a field's C string is a byte-by-byte comparison of
      the field's first `n` bytes with the literal. */
  lemma CStringStrnEq(field: seq<byte>, lit: string, n: nat)
    requires n <= |field| && n <= |lit| && forall i :: 0 <= i < n ==> lit[i] != '\0'
    ensures StrnEq(CString(field), lit, n) <==> forall i :: 0 <= i < n ==> ToChar(field[i]) == lit[i]
  {
    var s := CString(field);
    CStringIsNulFreePrefix(field);
    if |s| < n {
      assert field[|s|] == 0;
      assert ToChar(field[|s|]) != lit[|s|];
      assert |s[..Min(n, |s|)]| != |lit[..Min(n, |lit|)]|;
    } else {
      assert forall i :: 0 <= i < n ==> s[..n][i] == ToChar(field[i]);
    }
  }

  /** A header passes exactly when bytes 257..261 spell "ustar", bytes 263..264 spell
      "00" and the octal chksum field equals the computed checksum; the first failing
      check gives the code. */
  lemma HeaderCodeMeaning(block: seq<byte>)
    requires |block| == BLOCK
    ensures var magicOk := forall i :: 0 <= i < 5 ==> ToChar(block[MAGIC_OFF + i]) == TMAGIC[i];
      var versionOk := forall i :: 0 <= i < 2 ==> ToChar(block[VERSION_OFF + i]) == TVERSION[i];
      var sumOk := OctalValue(Field(block, CHKSUM_OFF, CHKSUM_LEN)) == Checksum(block);
      (HeaderCode(block) == -1 <==> !magicOk) &&
      (HeaderCode(block) == -2 <==> magicOk && !versionOk) &&
      (HeaderCode(block) == -3 <==> magicOk && versionOk && !sumOk) &&
      (HeaderCode(block) == 0 <==> magicOk && versionOk && sumOk)
  {
    var m := Field(block, MAGIC_OFF, MAGIC_LEN);
    var v := Field(block, VERSION_OFF, VERSION_LEN);
    CStringStrnEq(m, TMAGIC, TMAGLEN - 1);
    CStringStrnEq(v, TVERSION, TVERSLEN);
    assert forall i :: 0 <= i < 5 ==> m[i] == block[MAGIC_OFF + i];
    assert forall i :: 0 <= i < 2 ==> v[i] == block[VERSION_OFF + i];
  }

  predicate HeaderValid(data: seq<byte>, q: nat) {
    q + BLOCK <= |data| && HeaderCode(Block(data, q)) == 0
  }

  /** The outcome of validating from some header on: the number of headers and where
      the walk ended, or the failing code and the header that failed. */
  datatype Verdict = Count(n: nat, end: nat) | Bad(code: int, at: nat)

  function Prepend(k: nat, v: Verdict): Verdict {
    match v
    case Count(n, e) => Count(k + n, e)
    case Bad(_, _) => v
  }

  lemma PrependTwice(j: nat, k: nat, v: Verdict)
    ensures Prepend(j, Prepend(k, v)) == Prepend(j + k, v)
  {
  }

  function CheckFrom(data: seq<byte>, p: nat): Verdict
    requires p + BLOCK <= |data|
    decreases |data| - p
  {
    var code := HeaderCode(Block(data, p));
    if code != 0 then Bad(code, p)
    else
      var q := NextHeader(data, p);
      if AtEnd(data, q) then Count(1, q) else Prepend(1, CheckFrom(data, q))
  }

  /** The walk either counts at least one header and stops at the terminator, or stops
      at a header inside the archive that fails with a nonzero code. */
  lemma {:induction false} CheckFromEnds(data: seq<byte>, p: nat)
    requires p + BLOCK <= |data|
    ensures var v := CheckFrom(data, p);
      (v.Count? ==> v.n >= 1 && p < v.end && AtEnd(data, v.end)) &&
      (v.Bad? ==> p <= v.at && v.at + BLOCK <= |data| && HeaderCode(Block(data, v.at)) == v.code != 0)
    decreases |data| - p
  {
    var q := NextHeader(data, p);
    if HeaderCode(Block(data, p)) == 0 && !AtEnd(data, q) {
      CheckFromEnds(data, q);
    }
  }

  /** What check_archive returns for a verdict. */
  function VerdictCode(v: Verdict): int {
    match v
    case Count(n, _) => n
    case Bad(code, _) => code
  }

  /** The reference definition: the index of the first header in `hs` that fails
      validation, or `|hs|` when all pass. */
  function FirstInvalid(data: seq<byte>, hs: seq<nat>): (i: nat)
    ensures i <= |hs|
  {
    if hs == [] || !HeaderValid(data, hs[0]) then 0 else 1 + FirstInvalid(data, hs[1..])
  }

  /** The headers before the first invalid one are valid, and it is not. */
  lemma {:induction false} FirstInvalidIsFirst(data: seq<byte>, hs: seq<nat>)
    ensures var i := FirstInvalid(data, hs);
      (forall j :: 0 <= j < i ==> HeaderValid(data, hs[j])) && (i < |hs| ==> !HeaderValid(data, hs[i]))
  {
    if hs != [] && HeaderValid(data, hs[0]) {
      FirstInvalidIsFirst(data, hs[1..]);
      forall j | 0 < j < FirstInvalid(data, hs) ensures HeaderValid(data, hs[j]) {
        assert hs[j] == hs[1..][j - 1];
      }
    }
  }

  /** Unfolding the validation by one header. */
  lemma CheckFromStep(data: seq<byte>, p: nat)
    requires p + BLOCK <= |data|
    ensures !HeaderValid(data, p) ==> CheckFrom(data, p) == Bad(HeaderCode(Block(data, p)), p)
    ensures HeaderValid(data, p) && AtEnd(data, NextHeader(data, p)) ==>
      CheckFrom(data, p) == Count(1, NextHeader(data, p))
    ensures HeaderValid(data, p) && !AtEnd(data, NextHeader(data, p)) ==>
      CheckFrom(data, p) == Prepend(1, CheckFrom(data, NextHeader(data, p)))
  {
  }

  /** check_archive fails with the code of the first invalid header of the walk. */
  lemma {:induction false} CheckFromIsFirstError(data: seq<byte>, p: nat)
    requires p + BLOCK <= |data|
    ensures var hs := Headers(data, p); var i := FirstInvalid(data, hs);
      i < |hs| ==> CheckFrom(data, p) == Bad(HeaderCode(Block(data, hs[i])), hs[i])
    decreases |data| - p
  {
    var hs := Headers(data, p);
    var q := NextHeader(data, p);
    HeadersStep(data, p);
    CheckFromStep(data, p);
    if !HeaderValid(data, p) {
      assert FirstInvalid(data, hs) == 0;
    } else if AtEnd(data, q) {
      assert hs[1..] == [];
      assert FirstInvalid(data, hs) == 1;
    } else {
      var ts := Headers(data, q);
      assert hs[1..] == ts;
      var k := FirstInvalid(data, ts);
      assert FirstInvalid(data, hs) == k + 1;
      CheckFromIsFirstError(data, q);
      if k < |ts| {
        assert hs[k + 1] == ts[k];
        assert CheckFrom(data, p) == Bad(HeaderCode(Block(data, ts[k])), ts[k]);
      } else {
        assert k + 1 == |hs|;
      }
    }
  }

  /** check_archive succeeds, with the number of headers of the walk, when every one
      of them is valid. */
  lemma {:induction false} CheckFromCountsHeaders(data: seq<byte>, p: nat)
    requires p + BLOCK <= |data|
    ensures var hs := Headers(data, p);
      FirstInvalid(data, hs) == |hs| ==> CheckFrom(data, p) == Count(|hs|, EndOfWalk(data, p))
    decreases |data| - p
  {
    var hs := Headers(data, p);
    var q := NextHeader(data, p);
    HeadersStep(data, p);
    CheckFromStep(data, p);
    if FirstInvalid(data, hs) == |hs| {
      assert HeaderValid(data, p);
      if AtEnd(data, q) {
        assert hs == [p];
      } else {
        var ts := Headers(data, q);
        assert hs[1..] == ts;
        assert FirstInvalid(data, ts) == |ts|;
        CheckFromCountsHeaders(data, q);
        assert CheckFrom(data, q) == Count(|ts|, EndOfWalk(data, q));
        assert EndOfWalk(data, p) == EndOfWalk(data, q);
      }
    }
  }

  /** ... and succeeds only then. */
  lemma {:induction false} CheckFromCountOnlyIfValid(data: seq<byte>, p: nat)
    requires p + BLOCK <= |data|
    ensures CheckFrom(data, p).Count? ==> FirstInvalid(data, Headers(data, p)) == |Headers(data, p)|
    decreases |data| - p
  {
    var hs := Headers(data, p);
    var q := NextHeader(data, p);
    HeadersStep(data, p);
    CheckFromStep(data, p);
    if CheckFrom(data, p).Count? {
      assert HeaderValid(data, p);
      if AtEnd(data, q) {
        assert hs == [p];
      } else {
        var ts := Headers(data, q);
        assert hs[1..] == ts;
        assert CheckFrom(data, q).Count?;
        CheckFromCountOnlyIfValid(data, q);
        assert FirstInvalid(data, hs) == FirstInvalid(data, ts) + 1;
      }
    }
  }

  /** On success the count is the number of headers, at least 1; a failure is one of
      the three codes. */
  lemma CheckArchiveResult(data: seq<byte>)
    requires |data| >= BLOCK
    ensures var r := VerdictCode(CheckFrom(data, 0));
      r >= 1 || r == -1 || r == -2 || r == -3
    ensures CheckFrom(data, 0).Count? ==> VerdictCode(CheckFrom(data, 0)) == |Headers(data, 0)|
  {
    CheckFromEnds(data, 0);
    CheckFromCountsHeaders(data, 0);
    CheckFromCountOnlyIfValid(data, 0);
  }

  /** An empty archive, one whose first block is already the zero terminator, is
      rejected with -1: the first block is checked as a header before any end test. */
  lemma EmptyArchiveBadMagic(data: seq<byte>)
    requires |data| >= BLOCK && forall i :: 0 <= i < BLOCK ==> data[i] == 0
    ensures CheckFrom(data, 0) == Bad(-1, 0) && VerdictCode(CheckFrom(data, 0)) == -1
  {
    var b := Block(data, 0);
    assert Field(b, MAGIC_OFF, MAGIC_LEN)[0] == data[MAGIC_OFF] == 0;
    assert Magic(b) == "";
  }

  // ---------------------------------------------------------------------------
  // list

  /** Whether list writes a matched header, given `initBack`, the last-'/' index of the
      first header it matched: a header whose last '/' lies deeper is written only when
      the byte right after that '/' is the name's terminator. */
  predicate Keep(block: seq<byte>, initBack: nat)
    requires |block| == BLOCK
  {
    DecodedStrings(block);
    var lastBack := LastSlash(Name(block));
    lastBack > initBack ==> block[NAME_OFF + lastBack + 1] == 0
  }

  /** For a name that ends inside its field, a deeper header is kept exactly when its
      name ends right after its last '/' (a sub-directory entry such as "dir/c/"). */
  lemma KeepMeaning(block: seq<byte>, initBack: nat)
    requires |block| == BLOCK && |Name(block)| < NAME_LEN
    ensures var name := Name(block);
      Keep(block, initBack) <==> LastSlash(name) <= initBack || LastSlash(name) + 1 == |name|
  {
    var field := Field(block, NAME_OFF, NAME_LEN);
    var name := Name(block);
    var lb := LastSlash(name);
    CStringIsNulFreePrefix(field);
    LastSlashIsLast(name);
    if lb > initBack {
      assert lb < |name|;
      assert block[NAME_OFF + lb + 1] == field[lb + 1];
    }
  }

  /** Whatever the name's length, a header deeper than `initBack` is kept only when its
      name ends right after its last '/'. */
  lemma KeepIsShallowOrDir(block: seq<byte>, initBack: nat)
    requires |block| == BLOCK && Keep(block, initBack)
    ensures var name := Name(block);
      LastSlash(name) <= initBack || LastSlash(name) + 1 == |name|
  {
    var field := Field(block, NAME_OFF, NAME_LEN);
    var name := Name(block);
    var lb := LastSlash(name);
    CStringIsNulFreePrefix(field);
    assert lb + 1 < |name| ==> block[NAME_OFF + lb + 1] == field[lb + 1] != 0;
  }

  /** One pass of list: either the walk ended, with the names written, or a matched
      symlink redirected the listing to its resolved target. */
  datatype Pass = Done(listed: seq<string>, end: nat) | Link(listed: seq<string>, target: string, at: nat)

  function Max(a: int, b: int): int {
    if a >= b then a else b
  }

  /** What list does with a header that is not a matching symlink, having written
      `count` names: whether it writes the name, and the `initBack` it carries on with. */
  datatype Admission = Admission(write: bool, initBack: nat)

  function Admit(block: seq<byte>, path: string, count: nat, cap: nat, initBack: nat): (a: Admission)
    requires |block| == BLOCK
    ensures a.write ==> count < cap && IsPrefix(path, Name(block))
  {
    var name := Name(block);
    var matched := StrnEq(name, path, |path|);
    PathBoundIsPrefix(name, path);
    var initBack' := if matched && count == 0 then LastSlash(name) else initBack;
    Admission(matched && Keep(block, initBack') && count < cap, initBack')
  }

  /** The list loop from header `p`, having written `w` so far, with the current `initBack`. */
  function ListFrom(data: seq<byte>, p: nat, path: string, cap: nat, w: seq<string>, initBack: nat): (r: Pass)
    requires p + BLOCK <= |data|
    ensures |w| <= |r.listed| <= Max(|w|, cap)
    decreases |data| - p
  {
    var name := NameAt(data, p);
    if StrnEq(name, path, |path|) && TypeflagAt(data, p) == SYMTYPE then Link(w, LinkPath(path, LinknameAt(data, p)), p)
    else
      var a := Admit(Block(data, p), path, |w|, cap, initBack);
      var w' := if a.write then w + [name] else w;
      var q := NextHeader(data, p);
      if AtEnd(data, q) then Done(w', q) else ListFrom(data, q, path, cap, w', a.initBack)
  }

  /** A pass keeps what was written before it, and stops either at the terminator or
      at a matching symlink, whose target it resolves. */
  lemma {:induction false} ListFromEnds(data: seq<byte>, p: nat, path: string, cap: nat, w: seq<string>, initBack: nat)
    requires p + BLOCK <= |data|
    ensures var r := ListFrom(data, p, path, cap, w, initBack);
      w <= r.listed &&
      (r.Done? ==> p < r.end && AtEnd(data, r.end)) &&
      (r.Link? ==> p <= r.at && HeaderMatches(data, r.at, path, PathLength) &&
                   TypeflagAt(data, r.at) == SYMTYPE && r.target == LinkPath(path, LinknameAt(data, r.at)))
    decreases |data| - p
  {
    ListFromStep(data, p, path, cap, w, initBack);
    var name := NameAt(data, p);
    if !(StrnEq(name, path, |path|) && TypeflagAt(data, p) == SYMTYPE) {
      var a := Admit(Block(data, p), path, |w|, cap, initBack);
      var w' := if a.write then w + [name] else w;
      var q := NextHeader(data, p);
      if !AtEnd(data, q) {
        ListFromEnds(data, q, path, cap, w', a.initBack);
        assert w <= w';
      }
    }
  }

  /** Every name a pass writes starts with the listed path. */
  lemma {:induction false} ListedArePrefixed(data: seq<byte>, p: nat, path: string, cap: nat, w: seq<string>, initBack: nat)
    requires p + BLOCK <= |data|
    ensures var r := ListFrom(data, p, path, cap, w, initBack);
      forall k :: |w| <= k < |r.listed| ==> IsPrefix(path, r.listed[k])
    decreases |data| - p
  {
    var name := NameAt(data, p);
    if !(StrnEq(name, path, |path|) && TypeflagAt(data, p) == SYMTYPE) {
      var a := Admit(Block(data, p), path, |w|, cap, initBack);
      var w' := if a.write then w + [name] else w;
      var q := NextHeader(data, p);
      ListFromStep(data, p, path, cap, w, initBack);
      assert forall k :: |w| <= k < |w'| ==> IsPrefix(path, w'[k]);
      if !AtEnd(data, q) {
        ListedArePrefixed(data, q, path, cap, w', a.initBack);
        ListFromEnds(data, q, path, cap, w', a.initBack);
      }
    }
  }

  /** One header of the list loop: a matching symlink redirects, anything else is
      admitted or not and the walk goes on to the next header or ends. */
  lemma ListFromStep(data: seq<byte>, p: nat, path: string, cap: nat, w: seq<string>, initBack: nat)
    requires p + BLOCK <= |data|
    ensures StrnEq(NameAt(data, p), path, |path|) && TypeflagAt(data, p) == SYMTYPE ==>
      ListFrom(data, p, path, cap, w, initBack) == Link(w, LinkPath(path, LinknameAt(data, p)), p)
    ensures !(StrnEq(NameAt(data, p), path, |path|) && TypeflagAt(data, p) == SYMTYPE) ==>
      var a := Admit(Block(data, p), path, |w|, cap, initBack);
      var w' := if a.write then w + [NameAt(data, p)] else w;
      var q := NextHeader(data, p);
      ListFrom(data, p, path, cap, w, initBack) ==
        if AtEnd(data, q) then Done(w', q) else ListFrom(data, q, path, cap, w', a.initBack)
  {
  }

  /** A caller's entry array with the names `w` written at its first indexes. */
  function Overlay(a: seq<string>, w: seq<string>): (r: seq<string>)
    requires |w| <= |a|
    ensures |r| == |a|
  {
    w + a[|w|..]
  }

  /** The names land at the first indexes and the rest of the array is untouched. */
  lemma OverlayMeaning(a: seq<string>, w: seq<string>)
    requires |w| <= |a|
    ensures forall i :: 0 <= i < |w| ==> Overlay(a, w)[i] == w[i]
    ensures forall i :: |w| <= i < |a| ==> Overlay(a, w)[i] == a[i]
  {
  }

  /** Writing the next entry at index `|w|` overlays one more name. */
  lemma OverlayPush(a: seq<string>, w: seq<string>, x: string)
    requires |w| < |a|
    ensures Overlay(a, w)[|w| := x] == Overlay(a, w + [x])
  {
    assert Overlay(a, w)[|w| := x] == (w + [x]) + a[|w| + 1..];
  }

  /** What list leaves behind: its return value, `*no_entries`, the entry array and the cursor. */
  datatype Listing = Listing(ret: int, count: nat, entries: seq<string>, pos: nat)

  /** list on `path` with `cap` entries, following at most `fuel` symlinks. Out of fuel
      it returns 0 and lists nothing. */
  function ListSpec(data: seq<byte>, path: string, cap: nat, entries: seq<string>, fuel: nat): (l: Listing)
    requires |data| >= BLOCK && cap <= |entries|
    ensures |l.entries| == |entries|
    ensures l.count <= cap && (l.ret == 1 || (l.ret == 0 && l.count == 0))
    decreases fuel
  {
    match ListFrom(data, 0, path, cap, [], 0)
    case Done(w, e) => Listing(1, |w|, Overlay(entries, w), e)
    case Link(w, t, q) =>
      if fuel == 0 then Listing(0, 0, Overlay(entries, w), q + BLOCK)
      else ListSpec(data, t, cap, Overlay(entries, w), fuel - 1)
  }

  /** list returns 0 only when its first pass stopped at a matching symlink: a pass that
      reaches the end block always returns 1. */
  lemma ListZeroOnlyAtLink(data: seq<byte>, path: string, cap: nat, entries: seq<string>, fuel: nat)
    requires |data| >= BLOCK && cap <= |entries|
    ensures ListSpec(data, path, cap, entries, fuel).ret == 0 ==> ListFrom(data, 0, path, cap, [], 0).Link?
    ensures ListFrom(data, 0, path, cap, [], 0).Done? ==> ListSpec(data, path, cap, entries, fuel).ret == 1
  {
  }

  /** list writes at most `cap` names, so the caller's array beyond `*no_entries` is
      never touched, however many symlinks are followed. */
  lemma {:induction false} ListSpecKeepsTail(data: seq<byte>, path: string, cap: nat, entries: seq<string>, fuel: nat)
    requires |data| >= BLOCK && cap <= |entries|
    ensures forall i :: cap <= i < |entries| ==> ListSpec(data, path, cap, entries, fuel).entries[i] == entries[i]
    decreases fuel
  {
    var r := ListFrom(data, 0, path, cap, [], 0);
    var e := Overlay(entries, r.listed);
    assert |r.listed| <= cap;
    OverlayMeaning(entries, r.listed);
    if r.Link? && fuel > 0 {
      assert ListSpec(data, path, cap, entries, fuel) == ListSpec(data, r.target, cap, e, fuel - 1);
      ListSpecKeepsTail(data, r.target, cap, e, fuel - 1);
    } else {
      assert ListSpec(data, path, cap, entries, fuel).entries == e;
    }
  }

  /** With no matching header the pass writes nothing and ends: list returns 1 with
      `*no_entries` 0 even though nothing matched. */
  lemma {:induction false} ListNothingMatched(data: seq<byte>, p: nat, path: string, cap: nat, initBack: nat)
    requires p + BLOCK <= |data| && FindFrom(data, p, path, PathLength).Miss?
    ensures ListFrom(data, p, path, cap, [], initBack) == Done([], FindFrom(data, p, path, PathLength).end)
    decreases |data| - p
  {
    var q := NextHeader(data, p);
    if !AtEnd(data, q) {
      ListNothingMatched(data, q, path, cap, initBack);
    }
  }

  /** With room for an entry, the first matching header is always written first when it
      is not a symlink (so listing "dir/" lists "dir/" itself when it is stored). */
  lemma {:induction false} ListFirstMatchWritten(data: seq<byte>, p: nat, path: string, cap: nat, initBack: nat)
    requires p + BLOCK <= |data| && cap > 0
    requires FindFrom(data, p, path, PathLength).Hit?
    requires TypeflagAt(data, FindFrom(data, p, path, PathLength).at) != SYMTYPE
    ensures var r := ListFrom(data, p, path, cap, [], initBack);
      |r.listed| >= 1 && r.listed[0] == NameAt(data, FindFrom(data, p, path, PathLength).at)
    decreases |data| - p
  {
    if !StrnEq(NameAt(data, p), path, |path|) {
      ListNothingWrittenBefore(data, p, path, cap, initBack);
      ListFirstMatchWritten(data, NextHeader(data, p), path, cap, initBack);
    } else {
      ListFromEnds(data, p, path, cap, [], initBack);
      ListFromStep(data, p, path, cap, [], initBack);
      var a := Admit(Block(data, p), path, 0, cap, initBack);
      assert a.write;
      var q := NextHeader(data, p);
      FindFromStep(data, p, path, PathLength);
      if !AtEnd(data, q) {
        ListFromEnds(data, q, path, cap, [NameAt(data, p)], a.initBack);
        var r := ListFrom(data, q, path, cap, [NameAt(data, p)], a.initBack);
        assert r.listed[..1] == [NameAt(data, p)];
        assert r.listed[0] == r.listed[..1][0];
        assert [] + [NameAt(data, p)] == [NameAt(data, p)];
        assert ListFrom(data, p, path, cap, [], initBack) == r;
      }
    }
  }

  /** Helper: a header that does not match leaves the pass as it was. */
  lemma ListNothingWrittenBefore(data: seq<byte>, p: nat, path: string, cap: nat, initBack: nat)
    requires p + BLOCK <= |data| && !StrnEq(NameAt(data, p), path, |path|)
    requires FindFrom(data, p, path, PathLength).Hit?
    ensures !AtEnd(data, NextHeader(data, p))
    ensures ListFrom(data, p, path, cap, [], initBack) == ListFrom(data, NextHeader(data, p), path, cap, [], initBack)
    ensures FindFrom(data, p, path, PathLength) == FindFrom(data, NextHeader(data, p), path, PathLength)
  {
  }

  /** Every name a pass writes after the first lies no deeper than the first one's last
      '/', or ends right after its own last '/' (a directory entry). `initBack` is the
      first written name's last-'/' index once a name has been written. */
  lemma {:induction false} ListedDepth(data: seq<byte>, p: nat, path: string, cap: nat, w: seq<string>, initBack: nat)
    requires p + BLOCK <= |data|
    requires |w| > 0 ==> initBack == LastSlash(w[0])
    ensures var r := ListFrom(data, p, path, cap, w, initBack);
      forall k :: |w| <= k < |r.listed| && 0 < k ==>
        LastSlash(r.listed[k]) <= LastSlash(r.listed[0]) || LastSlash(r.listed[k]) + 1 == |r.listed[k]|
    decreases |data| - p
  {
    var name := NameAt(data, p);
    ListFromStep(data, p, path, cap, w, initBack);
    if !(StrnEq(name, path, |path|) && TypeflagAt(data, p) == SYMTYPE) {
      var block := Block(data, p);
      var a := Admit(block, path, |w|, cap, initBack);
      var w' := if a.write then w + [name] else w;
      var q := NextHeader(data, p);
      var r := ListFrom(data, p, path, cap, w, initBack);
      if a.write && |w| > 0 {
        KeepIsShallowOrDir(block, initBack);
      }
      assert |w'| > 0 ==> a.initBack == LastSlash(w'[0]);
      if !AtEnd(data, q) {
        ListedDepth(data, q, path, cap, w', a.initBack);
        ListFromEnds(data, q, path, cap, w', a.initBack);
      }
      assert w' <= r.listed;
    }
  }

  /** The first `n` names of `s`, or all of them when there are fewer. */
  function Take(s: seq<string>, n: nat): seq<string> {
    if |s| <= n then s else s[..n]
  }

  lemma AppendAssoc(a: seq<string>, b: seq<string>, c: seq<string>)
    ensures (a + b) + c == a + (b + c)
  {
  }

  /** One header's worth of writing, with room or without: writing `item` now and
      cutting later agree. */
  lemma TakeStep(w: seq<string>, item: seq<string>, rest: seq<string>, cap: nat, write: bool)
    requires |w| <= cap && |item| <= 1 && (write <==> item != [] && |w| < cap)
    ensures Take((if write then w + item else w) + rest, cap) == Take(w + (item + rest), cap)
  {
    AppendAssoc(w, item, rest);
    if !write && item != [] {
      TakeFull(w, item + rest);
      TakeFull(w, rest);
    }
  }

  lemma TakeFull(w: seq<string>, x: seq<string>)
    ensures Take(w + x, |w|) == w
  {
    assert (w + x)[..|w|] == w;
  }

  /** The names list selects from the headers `hs`, with `initBack` the last-'/' index
      of the first match and no cap: every matching header that passes the depth test,
      in archive order, up to the first matching symlink. */
  function Selected(data: seq<byte>, hs: seq<nat>, path: string, initBack: nat): seq<string>
    requires forall i :: 0 <= i < |hs| ==> hs[i] + BLOCK <= |data|
  {
    if hs == [] then []
    else
      var q := hs[0];
      var name := NameAt(data, q);
      if StrnEq(name, path, |path|) && TypeflagAt(data, q) == SYMTYPE then []
      else
        (if StrnEq(name, path, |path|) && Keep(Block(data, q), initBack) then [name] else []) +
        Selected(data, hs[1..], path, initBack)
  }

  /** The reference listing of a pass from the start of the archive: nothing when no
      header matches; otherwise the names selected from all the walk's headers relative
      to the first match, cut to the caller's `*no_entries`. */
  function ListReference(data: seq<byte>, path: string, cap: nat): seq<string>
    requires |data| >= BLOCK
  {
    match Lookup(data, path, PathLength)
    case Miss(_) => []
    case Hit(at) => Take(Selected(data, Headers(data, 0), path, LastSlash(NameAt(data, at))), cap)
  }

  /** Unfolding the selection by the walk's first header. */
  lemma SelectedStep(data: seq<byte>, p: nat, path: string, initBack: nat)
    requires p + BLOCK <= |data|
    ensures var name := NameAt(data, p);
      var q := NextHeader(data, p);
      Selected(data, Headers(data, p), path, initBack) ==
        if StrnEq(name, path, |path|) && TypeflagAt(data, p) == SYMTYPE then []
        else
          (if StrnEq(name, path, |path|) && Keep(Block(data, p), initBack) then [name] else []) +
          (if AtEnd(data, q) then [] else Selected(data, Headers(data, q), path, initBack))
  {
    var hs := Headers(data, p);
    var q := NextHeader(data, p);
    HeadersStep(data, p);
    if AtEnd(data, q) {
      assert hs[1..] == [];
    } else {
      assert hs[1..] == Headers(data, q);
    }
  }

  /** After the first name is written, `initBack` no longer changes, and a header is
      written when it matches, passes the depth test and the array has room. */
  lemma AdmitAfterFirst(block: seq<byte>, path: string, count: nat, cap: nat, initBack: nat)
    requires |block| == BLOCK && count > 0
    ensures Admit(block, path, count, cap, initBack) ==
      Admission(StrnEq(Name(block), path, |path|) && Keep(block, initBack) && count < cap, initBack)
  {
  }

  /** Once a name is written, `initBack` is fixed and the pass writes the selected names
      while there is room. */
  lemma {:induction false} ListFromTakesSelected(data: seq<byte>, p: nat, path: string, cap: nat, w: seq<string>, initBack: nat)
    requires p + BLOCK <= |data| && 0 < |w| <= cap
    ensures ListFrom(data, p, path, cap, w, initBack).listed ==
      Take(w + Selected(data, Headers(data, p), path, initBack), cap)
    decreases |data| - p
  {
    var name := NameAt(data, p);
    var q := NextHeader(data, p);
    ListFromStep(data, p, path, cap, w, initBack);
    SelectedStep(data, p, path, initBack);
    if !(StrnEq(name, path, |path|) && TypeflagAt(data, p) == SYMTYPE) {
      var block := Block(data, p);
      AdmitAfterFirst(block, path, |w|, cap, initBack);
      var a := Admit(block, path, |w|, cap, initBack);
      var item := if StrnEq(name, path, |path|) && Keep(block, initBack) then [name] else [];
      var w' := if a.write then w + [name] else w;
      var rest := if AtEnd(data, q) then [] else Selected(data, Headers(data, q), path, initBack);
      assert a.initBack == initBack;
      var r := ListFrom(data, p, path, cap, w, initBack);
      assert a.write == (item != [] && |w| < cap);
      if AtEnd(data, q) {
        assert r.listed == w' == Take(w' + rest, cap);
      } else {
        ListFromTakesSelected(data, q, path, cap, w', initBack);
      }
      TakeStep(w, item, rest, cap, a.write);
    } else {
      assert w + [] == w;
    }
  }

  /** At the first match, the pass writes the names selected relative to it. */
  lemma ListFromAtMatch(data: seq<byte>, p: nat, path: string, cap: nat, initBack: nat)
    requires p + BLOCK <= |data| && 0 < cap && StrnEq(NameAt(data, p), path, |path|)
    ensures ListFrom(data, p, path, cap, [], initBack).listed ==
      Take(Selected(data, Headers(data, p), path, LastSlash(NameAt(data, p))), cap)
  {
    var name := NameAt(data, p);
    var q := NextHeader(data, p);
    var ib := LastSlash(name);
    SelectedStep(data, p, path, ib);
    ListFromStep(data, p, path, cap, [], initBack);
    if TypeflagAt(data, p) != SYMTYPE {
      var block := Block(data, p);
      assert Keep(block, ib);
      var a := Admit(block, path, 0, cap, initBack);
      assert a.write && a.initBack == ib;
      assert [] + [name] == [name];
      if !AtEnd(data, q) {
        ListFromTakesSelected(data, q, path, cap, [name], ib);
      } else {
        assert [name] + [] == [name];
      }
    }
  }

  /** From any header before the first match, the pass writes the names selected
      relative to the first match, cut to the cap. */
  lemma {:induction false} ListFromSelects(data: seq<byte>, p: nat, path: string, cap: nat, initBack: nat)
    requires p + BLOCK <= |data| && 0 < cap && FindFrom(data, p, path, PathLength).Hit?
    ensures var at := FindFrom(data, p, path, PathLength).at;
      ListFrom(data, p, path, cap, [], initBack).listed ==
        Take(Selected(data, Headers(data, p), path, LastSlash(NameAt(data, at))), cap)
    decreases |data| - p
  {
    FindFromStep(data, p, path, PathLength);
    if !StrnEq(NameAt(data, p), path, |path|) {
      var q := NextHeader(data, p);
      var ib := LastSlash(NameAt(data, FindFrom(data, p, path, PathLength).at));
      SelectedStep(data, p, path, ib);
      ListNothingWrittenBefore(data, p, path, cap, initBack);
      ListFromSelects(data, q, path, cap, initBack);
      assert [] + Selected(data, Headers(data, q), path, ib) == Selected(data, Headers(data, q), path, ib);
    } else {
      ListFromAtMatch(data, p, path, cap, initBack);
    }
  }

  /** The names a pass of list writes from the start of the archive are the reference
      listing: in archive order, every matching header that passes the depth test
      relative to the first match, until the first matching symlink or the cap. */
  lemma ListPassIsReference(data: seq<byte>, path: string, cap: nat)
    requires |data| >= BLOCK
    ensures ListFrom(data, 0, path, cap, [], 0).listed == ListReference(data, path, cap)
  {
    if Lookup(data, path, PathLength).Miss? {
      ListNothingMatched(data, 0, path, cap, 0);
    } else if cap == 0 {
      assert |ListFrom(data, 0, path, cap, [], 0).listed| == 0;
    } else {
      ListFromSelects(data, 0, path, cap, 0);
    }
  }

  /** With no matching symlink among the headers, a pass runs to the walk's end. */
  lemma {:induction false} ListFromWithoutLink(data: seq<byte>, p: nat, path: string, cap: nat, w: seq<string>, initBack: nat)
    requires p + BLOCK <= |data|
    requires forall q :: q in Headers(data, p) ==> !(IsPrefix(path, NameAt(data, q)) && TypeflagAt(data, q) == SYMTYPE)
    ensures var r := ListFrom(data, p, path, cap, w, initBack);
      r.Done? && r.end == EndOfWalk(data, p)
    decreases |data| - p
  {
    var q := NextHeader(data, p);
    HeadersStep(data, p);
    PathBoundIsPrefix(NameAt(data, p), path);
    ListFromStep(data, p, path, cap, w, initBack);
    if !AtEnd(data, q) {
      var a := Admit(Block(data, p), path, |w|, cap, initBack);
      var w' := if a.write then w + [NameAt(data, p)] else w;
      assert forall h :: h in Headers(data, q) ==> h in Headers(data, p);
      ListFromWithoutLink(data, q, path, cap, w', a.initBack);
    }
  }

  /** list on a path that no matching symlink redirects: it returns 1, sets
      `*no_entries` to the number of reference names, writes them at the front of the
      caller's array and leaves the cursor at the walk's end. */
  lemma ListSpecIsReference(data: seq<byte>, path: string, cap: nat, entries: seq<string>, fuel: nat)
    requires |data| >= BLOCK && cap <= |entries|
    requires forall q :: q in Headers(data, 0) ==> !(IsPrefix(path, NameAt(data, q)) && TypeflagAt(data, q) == SYMTYPE)
    ensures var names := ListReference(data, path, cap);
      ListSpec(data, path, cap, entries, fuel) == Listing(1, |names|, Overlay(entries, names), EndOfWalk(data, 0))
  {
    ListFromWithoutLink(data, 0, path, cap, [], 0);
    ListPassIsReference(data, path, cap);
  }

  // ---------------------------------------------------------------------------
  // read_file

  /** Which entry read_file reads: a regular (or other non-directory, non-symlink)
      header, or -1 with the cursor where the walk stopped. */
  datatype Located = Entry(at: nat) | NoEntry(stop: nat)

  function Locate(data: seq<byte>, path: string, fuel: nat): (l: Located)
    requires |data| >= BLOCK
    ensures l.Entry? ==> l.at + BLOCK <= |data| &&
                         TypeflagAt(data, l.at) != DIRTYPE && TypeflagAt(data, l.at) != SYMTYPE
    decreases fuel
  {
    match Lookup(data, path, PathLength)
    case Miss(e) => NoEntry(e)
    case Hit(q) =>
      var t := TypeflagAt(data, q);
      if t == DIRTYPE then NoEntry(q + BLOCK)
      else if t == SYMTYPE then
        if fuel == 0 then NoEntry(q + BLOCK) else Locate(data, LinkPath(path, LinknameAt(data, q)), fuel - 1)
      else Entry(q)
  }

  /** The outcome of read_file: the return value when it reads, `*len`, and where in
      the archive the bytes start; or an error code and where the cursor stopped. */
  datatype ReadResult = Read(remaining: int, len: nat, start: nat) | ReadError(code: int, stop: nat)

  /** read_file on the entry whose header is at `q`: -2 when `offset` lies past the
      entry's size, otherwise `min(len, size - offset)` bytes from `offset` on. */
  function ReadAt(data: seq<byte>, q: nat, offset: nat, len: nat): (r: ReadResult)
    requires q + BLOCK <= |data|
    ensures r.Read? ==> r.len <= len && r.remaining >= 0 && (r.len == len || r.remaining == 0)
    ensures r.ReadError? ==> r.code == -2
  {
    var size := SizeAt(data, q);
    if offset > size then ReadError(-2, q + BLOCK)
    else
      var n := if size - offset < len then size - offset else len;
      Read(size - offset - n, n, q + BLOCK + offset)
  }

  function ReadSpec(data: seq<byte>, path: string, offset: nat, len: nat, fuel: nat): (r: ReadResult)
    requires |data| >= BLOCK
    ensures r.ReadError? ==> r.code == -1 || r.code == -2
  {
    match Locate(data, path, fuel)
    case NoEntry(stop) => ReadError(-1, stop)
    case Entry(q) => ReadAt(data, q, offset, len)
  }

  /** The bytes a `read` of `n` bytes at offset `s` delivers: `n` bytes, or fewer when
      the archive ends first. */
  function Delivered(data: seq<byte>, s: nat, n: nat): (c: seq<byte>)
    ensures |c| <= n && (s + n <= |data| ==> c == data[s..s + n])
    ensures s < |data| ==> s + |c| <= |data| && c == data[s..s + |c|] && (|c| == n || s + |c| == |data|)
    ensures s >= |data| ==> c == []
  {
    if s >= |data| then [] else data[s..s + Min(n, |data| - s)]
  }

  /** The data of the entry whose header is at `q`, and whether it lies inside the archive. */
  predicate DataInArchive(data: seq<byte>, q: nat)
    requires q + BLOCK <= |data|
  {
    q + BLOCK + SizeAt(data, q) <= |data|
  }

  function EntryData(data: seq<byte>, q: nat): (c: seq<byte>)
    requires q + BLOCK <= |data| && DataInArchive(data, q)
    ensures |c| == SizeAt(data, q)
  {
    data[q + BLOCK..q + BLOCK + SizeAt(data, q)]
  }

  /** A read returns `min(len, size - offset)` bytes, which the archive holds in full:
      the entry's bytes from `offset` on; it returns the number of bytes left after them. */
  lemma ReadIsSlice(data: seq<byte>, q: nat, offset: nat, len: nat)
    requires q + BLOCK <= |data| && DataInArchive(data, q)
    requires ReadAt(data, q, offset, len).Read?
    ensures var r := ReadAt(data, q, offset, len); var size := SizeAt(data, q);
      offset <= size && r.len == Min(len, size - offset) && r.remaining == size - offset - r.len &&
      Delivered(data, r.start, r.len) == EntryData(data, q)[offset..offset + r.len]
  {
    var r := ReadAt(data, q, offset, len);
    var size := SizeAt(data, q);
    var c := EntryData(data, q);
    assert r.start == q + BLOCK + offset && offset + r.len <= size;
    assert Delivered(data, r.start, r.len) == data[r.start..r.start + r.len];
    var d := data[r.start..r.start + r.len];
    var e := c[offset..offset + r.len];
    forall i | 0 <= i < r.len
      ensures e[i] == d[i]
    {
      assert c[offset + i] == data[q + BLOCK + offset + i];
    }
    assert e == d;
  }

  /** Any first match that is neither a directory nor a symlink is read, whatever its
      type: a hard link, a FIFO or a device entry is not refused. */
  lemma ReadOtherType(data: seq<byte>, path: string, offset: nat, len: nat, fuel: nat)
    requires |data| >= BLOCK && Lookup(data, path, PathLength).Hit?
    requires var t := TypeflagAt(data, Lookup(data, path, PathLength).at); t != DIRTYPE && t != SYMTYPE
    ensures ReadSpec(data, path, offset, len, fuel) == ReadAt(data, Lookup(data, path, PathLength).at, offset, len)
    ensures offset <= SizeAt(data, Lookup(data, path, PathLength).at) ==> ReadSpec(data, path, offset, len, fuel).Read?
  {
  }

  /** Reading after the last byte is allowed and reads nothing; one byte further is -2. */
  lemma ReadAtSize(data: seq<byte>, q: nat, len: nat)
    requires q + BLOCK <= |data|
    ensures ReadAt(data, q, SizeAt(data, q), len) == Read(0, 0, q + BLOCK + SizeAt(data, q))
    ensures ReadAt(data, q, SizeAt(data, q) + 1, len) == ReadError(-2, q + BLOCK)
  {
  }

  /** Reading in chunks: a read of `a` bytes that stops inside the entry, followed by a
      read of `b` bytes at `offset + a`, delivers the same bytes and leaves the same
      remainder as one read of `a + b` bytes at `offset`. */
  lemma ReadChunksCompose(data: seq<byte>, q: nat, offset: nat, a: nat, b: nat)
    requires q + BLOCK <= |data| && offset + a <= SizeAt(data, q)
    ensures var r1 := ReadAt(data, q, offset, a);
      var r2 := ReadAt(data, q, offset + a, b);
      var r := ReadAt(data, q, offset, a + b);
      r1.Read? && r2.Read? && r.Read? && r1.len == a &&
      r2.start == r1.start + a && r.start == r1.start &&
      r.len == a + r2.len && r.remaining == r2.remaining
  {
  }
}
