/** The ustar header layout (POSIX.1, pax utility, "ustar Interchange Format") and
    the C conventions lib_tar.c applies to it: NUL-terminated fields, octal numbers,
    and byte sums taken over a signed `char` buffer into an unsigned 32-bit `uint`. */
module TarFormat {

  newtype byte = x: int | 0 <= x < 256

  /** Size of a header record and of a data block. */
  const BLOCK: nat := 512
  /** `uint` arithmetic wraps modulo 2^32. */
  const UINT_MOD: int := 0x1_0000_0000

  // Field offsets and widths inside a header record
  const NAME_OFF: nat := 0
  const NAME_LEN: nat := 100
  const SIZE_OFF: nat := 124
  const SIZE_LEN: nat := 12
  const CHKSUM_OFF: nat := 148
  const CHKSUM_LEN: nat := 8
  const TYPEFLAG_OFF: nat := 156
  const LINKNAME_OFF: nat := 157
  const LINKNAME_LEN: nat := 100
  const MAGIC_OFF: nat := 257
  const MAGIC_LEN: nat := 6
  const VERSION_OFF: nat := 263
  const VERSION_LEN: nat := 2

  // The <tar.h> constants lib_tar.c compares against
  const TMAGIC: string := "ustar"
  const TMAGLEN: nat := 6
  const TVERSION: string := "00"
  const TVERSLEN: nat := 2
  const REGTYPE: char := '0'
  const AREGTYPE: char := '\0'
  const DIRTYPE: char := '5'
  const SYMTYPE: char := '2'

  function ToChar(b: byte): char {
    (b as int) as char
  }

  /** The bytes of the field at `off` of width `len`. */
  function Field(block: seq<byte>, off: nat, len: nat): seq<byte>
    requires off + len <= |block|
  {
    block[off..off + len]
  }

  /** The C string held by a fixed-width field: every byte before the first NUL, or the
      whole field when it holds no NUL (what `strlen` sees, cut at the field's end). */
  function CString(field: seq<byte>): string {
    if field == [] || field[0] == 0 then "" else [ToChar(field[0])] + CString(field[1..])
  }

  /** The C string is the field's longest NUL-free prefix: it ends at the first NUL, or
      at the field's end. */
  lemma {:induction false} CStringIsNulFreePrefix(field: seq<byte>)
    ensures var s := CString(field);
      |s| <= |field| &&
      (forall i :: 0 <= i < |s| ==> field[i] != 0 && s[i] == ToChar(field[i])) &&
      (|s| < |field| ==> field[|s|] == 0)
  {
    if field != [] && field[0] != 0 {
      CStringIsNulFreePrefix(field[1..]);
    }
  }

  // ---------------------------------------------------------------------------
  // Octal numbers (TAR_INT)

  predicate IsOctalDigit(b: byte) {
    '0' as int <= b as int <= '7' as int
  }

  function DigitValue(b: byte): nat
    requires IsOctalDigit(b)
  {
    b as int - '0' as int
  }

  function OctalDigit(d: nat): (b: byte)
    requires d < 8
    ensures IsOctalDigit(b) && DigitValue(b) == d
  {
    (d + '0' as int) as byte
  }

  /** The number an all-octal-digit sequence spells, most significant digit first. */
  function DigitsValue(d: seq<byte>): nat
    requires forall i :: 0 <= i < |d| ==> IsOctalDigit(d[i])
  {
    if d == [] then 0 else DigitsValue(d[..|d| - 1]) * 8 + DigitValue(d[|d| - 1])
  }

  /** TAR_INT, scanning from the left: each leading octal digit shifts the value
      accumulated so far by one digit; the first other byte (or the field's end) stops it. */
  function OctalFold(s: seq<byte>, acc: nat): nat {
    if s != [] && IsOctalDigit(s[0]) then OctalFold(s[1..], acc * 8 + DigitValue(s[0])) else acc
  }

  /** TAR_INT: the value of the field's leading octal digits. */
  function OctalValue(field: seq<byte>): nat {
    OctalFold(field, 0)
  }

  function Pow8(w: nat): (r: nat)
    ensures r >= 1
  {
    if w == 0 then 1 else 8 * Pow8(w - 1)
  }

  /** The `w`-digit, zero-padded octal spelling of `n`, as a tar writer stores size and chksum. */
  function EncodeOctal(n: nat, w: nat): (d: seq<byte>)
    ensures |d| == w && forall i :: 0 <= i < |d| ==> IsOctalDigit(d[i])
  {
    if w == 0 then [] else EncodeOctal(n / 8, w - 1) + [OctalDigit(n % 8)]
  }

  lemma {:induction false} EncodeOctalValue(n: nat, w: nat)
    requires n < Pow8(w)
    ensures DigitsValue(EncodeOctal(n, w)) == n
  {
    if w > 0 {
      assert n / 8 < Pow8(w - 1);
      EncodeOctalValue(n / 8, w - 1);
      var d := EncodeOctal(n, w);
      assert d[..|d| - 1] == EncodeOctal(n / 8, w - 1);
    } else {
      assert n == 0;
    }
  }

  lemma ShiftLeading(v: nat, p: nat, x: nat)
    ensures (v * p + x) * 8 == v * (8 * p) + x * 8
  {
  }

  /** The leading digit of a digit sequence weighs 8 to the number of digits after it. */
  lemma {:induction false} DigitsValueFront(d: seq<byte>)
    requires d != [] && forall i :: 0 <= i < |d| ==> IsOctalDigit(d[i])
    ensures DigitsValue(d) == DigitValue(d[0]) * Pow8(|d| - 1) + DigitsValue(d[1..])
  {
    if |d| > 1 {
      var init := d[..|d| - 1];
      var v0, vl := DigitValue(d[0]), DigitValue(d[|d| - 1]);
      var p := Pow8(|d| - 2);
      DigitsValueFront(init);
      assert init[1..] == d[1..][..|d[1..]| - 1];
      assert DigitsValue(d[1..]) == DigitsValue(init[1..]) * 8 + vl;
      assert DigitsValue(d) == (v0 * p + DigitsValue(init[1..])) * 8 + vl;
      ShiftLeading(v0, p, DigitsValue(init[1..]));
    } else {
      assert d[1..] == [];
    }
  }

  lemma ShiftDigit(acc: nat, c: nat, p: nat)
    ensures (acc * 8 + c) * p == acc * (8 * p) + c * p
  {
  }

  /** Folding over digits followed by a non-digit (or nothing) adds their value to the
      shifted accumulator. */
  lemma {:induction false} OctalFoldDigits(d: seq<byte>, rest: seq<byte>, acc: nat)
    requires forall i :: 0 <= i < |d| ==> IsOctalDigit(d[i])
    requires rest == [] || !IsOctalDigit(rest[0])
    ensures OctalFold(d + rest, acc) == acc * Pow8(|d|) + DigitsValue(d)
  {
    if d == [] {
      assert d + rest == rest;
    } else {
      assert (d + rest)[0] == d[0];
      assert (d + rest)[1..] == d[1..] + rest;
      var c, p := DigitValue(d[0]), Pow8(|d| - 1);
      assert Pow8(|d|) == 8 * p;
      assert OctalFold(d + rest, acc) == OctalFold(d[1..] + rest, acc * 8 + c);
      OctalFoldDigits(d[1..], rest, acc * 8 + c);
      DigitsValueFront(d);
      ShiftDigit(acc, c, p);
    }
  }

  /** TAR_INT reads back what a tar writer stores: `w` octal digits followed by a
      terminator (NUL or space) or the end of the field. */
  lemma OctalRoundTrip(n: nat, w: nat, rest: seq<byte>)
    requires n < Pow8(w)
    requires rest == [] || !IsOctalDigit(rest[0])
    ensures OctalValue(EncodeOctal(n, w) + rest) == n
  {
    OctalFoldDigits(EncodeOctal(n, w), rest, 0);
    EncodeOctalValue(n, w);
  }

  // ---------------------------------------------------------------------------
  // Byte sums

  /** The value a byte has when read from a `char` buffer on a signed-char ABI. */
  function SignedChar(b: byte): int {
    if b < 128 then b as int else b as int - 256
  }

  /** `uint sum = 0; for each byte: sum += (char) byte;` with the wrap of every `+=`. */
  function UintSum(s: seq<byte>): (r: int)
    ensures 0 <= r < UINT_MOD
  {
    if s == [] then 0 else (UintSum(s[..|s| - 1]) + SignedChar(s[|s| - 1])) % UINT_MOD
  }

  /** The mathematical sum of the signed values. */
  function SignedSum(s: seq<byte>): int {
    if s == [] then 0 else SignedSum(s[..|s| - 1]) + SignedChar(s[|s| - 1])
  }

  /** The sum POSIX specifies: bytes as unsigned values. */
  function UnsignedSum(s: seq<byte>): nat {
    if s == [] then 0 else UnsignedSum(s[..|s| - 1]) + s[|s| - 1] as nat
  }

  lemma ModAdd(a: int, b: int)
    ensures (a % UINT_MOD + b) % UINT_MOD == (a + b) % UINT_MOD
  {
    var q := a / UINT_MOD;
    assert a == q * UINT_MOD + a % UINT_MOD;
  }

  /** Wrapping after every `+=` is wrapping the total once. */
  lemma {:induction false} UintSumIsWrappedSum(s: seq<byte>)
    ensures UintSum(s) == SignedSum(s) % UINT_MOD
  {
    if s != [] {
      var t := s[..|s| - 1];
      UintSumIsWrappedSum(t);
      ModAdd(SignedSum(t), SignedChar(s[|s| - 1]));
    }
  }

  /** An all-zero block sums to zero. */
  lemma {:induction false} ZeroBlockSum(s: seq<byte>)
    requires forall i :: 0 <= i < |s| ==> s[i] == 0
    ensures UintSum(s) == 0
  {
    if s != [] {
      ZeroBlockSum(s[..|s| - 1]);
    }
  }

  predicate IsAscii(s: seq<byte>) {
    forall i :: 0 <= i < |s| ==> s[i] < 128
  }

  lemma {:induction false} AsciiSignedIsUnsigned(s: seq<byte>)
    requires IsAscii(s)
    ensures SignedSum(s) == UnsignedSum(s) <= 127 * |s|
  {
    if s != [] {
      AsciiSignedIsUnsigned(s[..|s| - 1]);
    }
  }

  lemma {:induction false} UnsignedSumZero(s: seq<byte>)
    ensures UnsignedSum(s) == 0 <==> forall i :: 0 <= i < |s| ==> s[i] == 0
  {
    if s != [] {
      UnsignedSumZero(s[..|s| - 1]);
    }
  }

  /** On a block of ASCII bytes the signed-`char` `uint` sum is the POSIX unsigned sum,
      and it is zero exactly when every byte is zero. */
  lemma AsciiBlockSum(s: seq<byte>)
    requires IsAscii(s) && |s| <= BLOCK
    ensures UintSum(s) == UnsignedSum(s)
    ensures UintSum(s) == 0 <==> forall i :: 0 <= i < |s| ==> s[i] == 0
  {
    UintSumIsWrappedSum(s);
    AsciiSignedIsUnsigned(s);
    UnsignedSumZero(s);
  }

  /** The byte the checksum loop adds at index `i`: a space inside the chksum field. */
  function CountedByte(block: seq<byte>, i: nat): byte
    requires i < |block|
  {
    if CHKSUM_OFF <= i < CHKSUM_OFF + CHKSUM_LEN then ' ' as int as byte else block[i]
  }

  /** The header with its chksum field replaced by eight spaces. */
  function Blanked(block: seq<byte>): (b: seq<byte>)
    ensures |b| == |block|
  {
    seq(|block|, i requires 0 <= i < |block| => CountedByte(block, i))
  }

  /** The checksum lib_tar.c computes for a header. */
  function Checksum(block: seq<byte>): int {
    UintSum(Blanked(block))
  }

  /** On an ASCII header the computed checksum is the standard (unsigned) one. */
  lemma AsciiChecksum(block: seq<byte>)
    requires |block| == BLOCK && IsAscii(block)
    ensures Checksum(block) == UnsignedSum(Blanked(block))
  {
    var b := Blanked(block);
    assert IsAscii(b);
    AsciiBlockSum(b);
  }

  // ---------------------------------------------------------------------------
  // Header fields (the `tar_header_t*` cast of a 512-byte record)

  /** `a_header->name` as a C string. */
  function Name(block: seq<byte>): string
    requires |block| == BLOCK
  {
    CString(Field(block, NAME_OFF, NAME_LEN))
  }

  /** `TAR_INT(a_header->size)`. */
  function Size(block: seq<byte>): nat
    requires |block| == BLOCK
  {
    OctalValue(Field(block, SIZE_OFF, SIZE_LEN))
  }

  /** `TAR_INT(a_header->chksum)`. */
  function Chksum(block: seq<byte>): nat
    requires |block| == BLOCK
  {
    OctalValue(Field(block, CHKSUM_OFF, CHKSUM_LEN))
  }

  function Typeflag(block: seq<byte>): char
    requires |block| == BLOCK
  {
    ToChar(block[TYPEFLAG_OFF])
  }

  function Linkname(block: seq<byte>): string
    requires |block| == BLOCK
  {
    CString(Field(block, LINKNAME_OFF, LINKNAME_LEN))
  }

  function Magic(block: seq<byte>): string
    requires |block| == BLOCK
  {
    CString(Field(block, MAGIC_OFF, MAGIC_LEN))
  }

  function Version(block: seq<byte>): string
    requires |block| == BLOCK
  {
    CString(Field(block, VERSION_OFF, VERSION_LEN))
  }

  /** A decoded name or link target fits its field and holds no NUL. */
  lemma DecodedStrings(block: seq<byte>)
    requires |block| == BLOCK
    ensures |Name(block)| <= NAME_LEN && '\0' !in Name(block)
    ensures |Linkname(block)| <= LINKNAME_LEN && '\0' !in Linkname(block)
  {
    CStringIsNulFreePrefix(Field(block, NAME_OFF, NAME_LEN));
    CStringIsNulFreePrefix(Field(block, LINKNAME_OFF, LINKNAME_LEN));
  }
}
