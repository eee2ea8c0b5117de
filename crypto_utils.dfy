/**
 * `crypto_core.TwoFactorUtils`: fresh Base32 secrets and backup recovery
 * codes.
 *
 * The random source (`secrets.token_bytes`, and `secrets.token_hex`, which
 * hex-encodes it) is the parameter `draw`: `draw(i, n)` is what the `i`-th
 * request for `n` random bytes returns.
 */
module TwoFactorUtils {
  import opened Wrappers
  import opened Text
  import Base32
  import Totp

  type byte = Base32.byte

  /** The random source: `draw(i, n)` answers the `i`-th call of `token_bytes(n)`. */
  type TokenBytes = (nat, nat) -> seq<byte>

  /** `token_bytes(n)` keeps its promise of exactly `n` bytes. */
  ghost predicate Honest(draw: TokenBytes) {
    forall i: nat, n: nat :: |draw(i, n)| == n
  }

  /** `os.urandom` refuses a negative byte count with `ValueError`. */
  datatype Error = NegativeByteCount(n: int)

  /** `generate_secret`'s default length, in bytes. */
  const SecretLength: nat := 20

  // ---------------------------------------------------------------------------
  // generate_secret_base32
  // ---------------------------------------------------------------------------

  /** `generate_secret_base32(length)`, given the `length` random bytes. */
  function SecretBase32(secret: seq<byte>): string {
    Base32.Encoding(secret)
  }

  /** Twenty random bytes give 32 Base32 symbols exactly, with no padding, which decode back to the bytes. */
  lemma SecretBase32Shape(secret: seq<byte>)
    requires |secret| == SecretLength
    ensures |SecretBase32(secret)| == 32
    ensures Base32.AllSymbols(SecretBase32(secret))
    ensures Base32.Decoding(SecretBase32(secret)) == Success(secret)
  {
    var e, s := SecretBase32(secret), Base32.DataSymbols(secret);
    Base32.EncodingShape(secret);
    assert 8 * |secret| + 4 == 164;
    assert |s| == 32;
    assert |e| == 32 by {
      assert 32 <= |e| < 40 && |e| % 8 == 0;
    }
    assert Repeat('=', 0) == [];
    assert e == s;
    Base32.RoundTrip(secret);
  }

  // ---------------------------------------------------------------------------
  // Hexadecimal
  // ---------------------------------------------------------------------------

  /** The lower-case hex digit `binascii.hexlify` writes for a nibble. */
  function HexDigit(d: nat): char
    requires d < 16
  {
    if d < 10 then ('0' as int + d) as char else ('a' as int + d - 10) as char
  }

  /** The characters of an upper-cased hex string. */
  predicate IsUpperHex(c: char) {
    '0' <= c <= '9' || 'A' <= c <= 'F'
  }

  /** `token_hex`: two lower-case hex digits per byte, high nibble first. */
  function Hex(bytes: seq<byte>): (r: string)
    ensures |r| == 2 * |bytes|
  {
    if bytes == [] then []
    else [HexDigit(bytes[0] / 16), HexDigit(bytes[0] % 16)] + Hex(bytes[1..])
  }

  /** The value of an upper-case hex digit. */
  function NibbleOf(c: char): (r: Option<nat>)
    ensures r.Some? ==> r.value < 16
  {
    if '0' <= c <= '9' then Some(c as int - '0' as int)
    else if 'A' <= c <= 'F' then Some(c as int - 'A' as int + 10)
    else None
  }

  /** Reading an upper-case hex string back into bytes: `bytes.fromhex`, upper case only. */
  function ParseHex(s: string): Option<seq<byte>>
    decreases |s|
  {
    if s == [] then Some([])
    else if |s| == 1 then None
    else match (NibbleOf(s[0]), NibbleOf(s[1]), ParseHex(s[2..]))
      case (Some(h), Some(l), Some(rest)) => Some([(h * 16 + l) as byte] + rest)
      case _ => None
  }

  /** Byte `j` becomes characters `2j` and `2j + 1` of `token_hex`. */
  lemma {:induction false} HexAt(bytes: seq<byte>, j: nat)
    requires j < |bytes|
    ensures Hex(bytes)[2 * j] == HexDigit(bytes[j] / 16) && Hex(bytes)[2 * j + 1] == HexDigit(bytes[j] % 16)
    decreases j
  {
    if j > 0 {
      HexAt(bytes[1..], j - 1);
    }
  }

  /** Upper-casing a hex digit gives an upper-case hex digit of the same value. */
  lemma UpperDigit(d: nat)
    requires d < 16
    ensures IsUpperHex(UpperChar(HexDigit(d))) && NibbleOf(UpperChar(HexDigit(d))) == Some(d)
  {
  }

  lemma NibblesJoin(x: byte)
    ensures x / 16 * 16 + x % 16 == x
  {
  }

  /** A text whose character pairs hold the nibbles of `b` parses to `b`. */
  lemma {:induction false} ParseHexDigits(s: string, b: seq<byte>)
    requires |s| == 2 * |b|
    requires forall j :: 0 <= j < |b| ==> NibbleOf(s[2 * j]) == Some(b[j] / 16) && NibbleOf(s[2 * j + 1]) == Some(b[j] % 16)
    ensures ParseHex(s) == Some(b)
    decreases |b|
  {
    if b != [] {
      var s', b' := s[2..], b[1..];
      forall j | 0 <= j < |b'|
        ensures NibbleOf(s'[2 * j]) == Some(b'[j] / 16) && NibbleOf(s'[2 * j + 1]) == Some(b'[j] % 16)
      {
        assert s'[2 * j] == s[2 * (j + 1)] && s'[2 * j + 1] == s[2 * (j + 1) + 1] && b'[j] == b[j + 1];
      }
      ParseHexDigits(s', b');
      var h, l := b[0] / 16, b[0] % 16;
      assert NibbleOf(s[0]) == Some(h) && NibbleOf(s[1]) == Some(l);
      NibblesJoin(b[0]);
      assert ParseHex(s) == Some([b[0]] + b');
      assert b == [b[0]] + b';
    }
  }

  /** Upper-cased `token_hex` output holds only upper-case hex digits and reads back as the bytes. */
  lemma UpperHexInverse(bytes: seq<byte>)
    ensures forall k :: 0 <= k < |Upper(Hex(bytes))| ==> IsUpperHex(Upper(Hex(bytes))[k])
    ensures forall j :: 0 <= j < |bytes| ==>
      NibbleOf(Upper(Hex(bytes))[2 * j]) == Some(bytes[j] / 16) && NibbleOf(Upper(Hex(bytes))[2 * j + 1]) == Some(bytes[j] % 16)
    ensures ParseHex(Upper(Hex(bytes))) == Some(bytes)
  {
    var u := Upper(Hex(bytes));
    forall j | 0 <= j < |bytes|
      ensures IsUpperHex(u[2 * j]) && IsUpperHex(u[2 * j + 1])
      ensures NibbleOf(u[2 * j]) == Some(bytes[j] / 16) && NibbleOf(u[2 * j + 1]) == Some(bytes[j] % 16)
    {
      HexAt(bytes, j);
      UpperDigit(bytes[j] / 16);
      UpperDigit(bytes[j] % 16);
    }
    forall k | 0 <= k < |u| ensures IsUpperHex(u[k]) {
      var j := k / 2;
      assert k == 2 * j || k == 2 * j + 1;
    }
    ParseHexDigits(u, bytes);
  }

  // ---------------------------------------------------------------------------
  // generate_backup_codes
  // ---------------------------------------------------------------------------

  function Min(a: int, b: int): int {
    if a < b then a else b
  }

  /** `f"{code[:4]}-{code[4:8]}"`, with Python's clamped slicing. */
  function FormatCode(code: string): string {
    code[..Min(4, |code|)] + "-" + code[Min(4, |code|)..Min(8, |code|)]
  }

  /** One backup code from the bytes behind `token_hex(length // 2)`. */
  function BackupCode(bytes: seq<byte>): string {
    FormatCode(Upper(Hex(bytes)))
  }

  /** What `generate_backup_codes(count, length)` returns or raises. */
  function BackupCodes(count: int, length: int, draw: TokenBytes): Result<seq<string>, Error> {
    if count <= 0 then Success([])
    else if length < 0 then Failure(NegativeByteCount(Totp.FloorDiv(length, 2)))
    else Success(CodesFrom(count, length / 2, draw))
  }

  /** The codes of the first `count` draws of `n` bytes each, in order. */
  function CodesFrom(count: nat, n: nat, draw: TokenBytes): (r: seq<string>)
    ensures |r| == count && forall i :: 0 <= i < count ==> r[i] == BackupCode(draw(i, n))
  {
    seq(count, (i: int) requires 0 <= i => BackupCode(draw(i, n)))
  }

  /** `TwoFactorUtils.generate_backup_codes(count, length)`. */
  method GenerateBackupCodes(count: int, length: int, draw: TokenBytes) returns (r: Result<seq<string>, Error>)
    ensures r == BackupCodes(count, length, draw)
  {
    var codes: seq<string> := [];
    var i := 0;
    while i < count
      invariant 0 <= i && (if count > 0 then i <= count else i == 0)
      invariant i > 0 ==> length >= 0
      invariant i > 0 ==> codes == CodesFrom(i, length / 2, draw)
      invariant i == 0 ==> codes == []
    {
      var n := Totp.FloorDiv(length, 2);
      if n < 0 {
        return Failure(NegativeByteCount(n));
      }
      var code := Upper(Hex(draw(i, n)));
      var formatted := code[..Min(4, |code|)] + "-" + code[Min(4, |code|)..Min(8, |code|)];
      codes := codes + [formatted];
      i := i + 1;
    }
    return Success(codes);
  }

  /**
   * A backup code is the upper-case hex of the first four drawn bytes (all of
   * them when fewer were drawn) with a dash after the fourth digit, or at the
   * end when there are fewer: the digits read back as those bytes.
   */
  lemma BackupCodeDigits(bytes: seq<byte>)
    ensures var c, m, p := BackupCode(bytes), Min(|bytes|, 4), Min(4, 2 * |bytes|);
      && |c| == 2 * m + 1 && c[p] == '-'
      && (forall k :: 0 <= k < |c| && k != p ==> IsUpperHex(c[k]))
      && ParseHex(c[..p] + c[p + 1..]) == Some(bytes[..m])
  {
    var u := Upper(Hex(bytes));
    var m := Min(|bytes|, 4);
    FormatCodeParts(u);
    UpperHexInverse(bytes);
    FormatCodeUpperHex(u);
    HexPrefixDigits(bytes, m);
    assert Min(8, |u|) == 2 * m;
  }

  /** Every character of a formatted code but the dash comes from its upper-case hex input. */
  lemma FormatCodeUpperHex(u: string)
    requires forall k :: 0 <= k < |u| ==> IsUpperHex(u[k])
    ensures var c, p := FormatCode(u), Min(4, |u|);
      forall k :: 0 <= k < |c| && k != p ==> IsUpperHex(c[k])
  {
    var c, p := FormatCode(u), Min(4, |u|);
    FormatCodeParts(u);
    forall k | 0 <= k < |c| && k != p
      ensures IsUpperHex(c[k])
    {
      var i := if k < p then k else k - 1;
      assert c[k] == u[i];
    }
  }

  /** The first `2 * m` hex digits of `bytes` parse back to its first `m` bytes. */
  lemma HexPrefixDigits(bytes: seq<byte>, m: nat)
    requires m <= |bytes|
    ensures ParseHex(Upper(Hex(bytes))[..2 * m]) == Some(bytes[..m])
  {
    var u := Upper(Hex(bytes));
    UpperHexInverse(bytes);
    var d, b := u[..2 * m], bytes[..m];
    forall j | 0 <= j < |b|
      ensures NibbleOf(d[2 * j]) == Some(b[j] / 16) && NibbleOf(d[2 * j + 1]) == Some(b[j] % 16)
    {
      assert b[j] == bytes[j] && d[2 * j] == u[2 * j] && d[2 * j + 1] == u[2 * j + 1];
    }
    ParseHexDigits(d, b);
  }

  /** `code[:4] + "-" + code[4:8]` keeps the first eight characters, in order, around the dash. */
  lemma FormatCodeParts(u: string)
    ensures var c, p, e := FormatCode(u), Min(4, |u|), Min(8, |u|);
      && |c| == e + 1 && c[p] == '-' && c[..p] + c[p + 1..] == u[..e]
      && (forall k :: 0 <= k < |c| && k != p ==> c[k] == if k < p then u[k] else u[k - 1])
  {
  }

  /** Reading a `XXXX-XXXX` code back into the bytes it was drawn from. */
  function ParseBackupCode(code: string): Option<seq<byte>> {
    if |code| == 9 && code[4] == '-' then ParseHex(code[..4] + code[5..]) else None
  }

  /**
   * With at least four bytes drawn (the default `length == 8` draws exactly
   * four), the code has the `XXXX-XXXX` shape and reads back as the first four.
   */
  lemma BackupCodeInverse(bytes: seq<byte>)
    requires |bytes| >= 4
    ensures var c := BackupCode(bytes);
      |c| == 9 && c[4] == '-' && (forall k :: 0 <= k < 9 && k != 4 ==> IsUpperHex(c[k]))
      && ParseBackupCode(c) == Some(bytes[..4])
  {
    BackupCodeDigits(bytes);
  }

  /**
   * `generate_backup_codes` returns `count` codes (none for `count <= 0`),
   * raises only for a negative length with a positive count, and with an
   * honest random source and `length >= 8` every code has the `XXXX-XXXX`
   * shape and reads back as the first four bytes it was drawn from.
   */
  lemma BackupCodesShape(count: int, length: int, draw: TokenBytes)
    ensures BackupCodes(count, length, draw).Failure? <==> count > 0 && length < 0
    ensures BackupCodes(count, length, draw).Success? ==>
      |BackupCodes(count, length, draw).value| == (if count < 0 then 0 else count)
    ensures Honest(draw) && length >= 8 && count > 0 ==>
      forall i :: 0 <= i < count ==>
        var c := BackupCodes(count, length, draw).value[i];
        |c| == 9 && c[4] == '-' && (forall k :: 0 <= k < 9 && k != 4 ==> IsUpperHex(c[k]))
        && ParseBackupCode(c) == Some(draw(i, length / 2)[..4])
  {
    if Honest(draw) && length >= 8 && count > 0 {
      forall i | 0 <= i < count
        ensures var c := BackupCodes(count, length, draw).value[i];
          |c| == 9 && c[4] == '-' && (forall k :: 0 <= k < 9 && k != 4 ==> IsUpperHex(c[k]))
          && ParseBackupCode(c) == Some(draw(i, length / 2)[..4])
      {
        var bytes := draw(i, length / 2);
        assert |bytes| == length / 2;
        BackupCodeInverse(bytes);
      }
    }
  }
}
