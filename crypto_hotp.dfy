/**
 * HOTP, the HMAC-based one-time password of RFC 4226, as `crypto_core.HOTP`
 * computes it.
 *
 * HMAC-SHA1 is not modelled: it is the parameter `mac`, any function from a
 * key and a message to a 20-byte digest. Everything after the digest (the
 * dynamic truncation of RFC 4226 section 5.3, the reduction modulo
 * `10^digits` and the zero padding) is modelled and proved.
 */
module Hotp {
  import opened Wrappers
  import opened Text
  import Base32

  type byte = Base32.byte

  /** An HMAC-SHA1 result: twenty bytes. */
  type Digest = d: seq<byte> | |d| == 20 witness seq(20, _ => 0)

  /** `hmac.new(key, msg, hashlib.sha1).digest()`. */
  type Mac = (seq<byte>, seq<byte>) -> Digest

  /** The exceptions the one-time-password code can raise. */
  datatype Error =
    | CounterOutOfRange(counter: int)  // `struct.pack('>Q', counter)` outside [0, 2^64)
    | ZeroPeriod                       // `timestamp // period` with `period == 0`

  /** `2^64`, the first counter `struct.pack('>Q', ...)` refuses. */
  const CounterLimit: nat := 0x1_0000_0000_0000_0000

  // ---------------------------------------------------------------------------
  // Big-endian integers
  // ---------------------------------------------------------------------------

  function Pow256(w: nat): (r: nat)
    ensures r >= 1
  {
    if w == 0 then 1 else 256 * Pow256(w - 1)
  }

  /** The value of a big-endian byte string, as `struct.unpack('>I', ...)` reads four of them. */
  function BigEndian(bs: seq<byte>): nat {
    if |bs| == 0 then 0 else 256 * BigEndian(bs[..|bs| - 1]) + bs[|bs| - 1]
  }

  /** The `w` low-order bytes of `n`, most significant first. */
  function ToBytes(n: nat, w: nat): (r: seq<byte>)
    ensures |r| == w
  {
    if w == 0 then [] else ToBytes(n / 256, w - 1) + [n % 256]
  }

  /** The remainder modulo `256p` from the last byte and the remainder of the rest modulo `p`. */
  lemma ModByte(n: nat, p: nat)
    requires p > 0
    ensures n % (256 * p) == 256 * ((n / 256) % p) + n % 256
  {
    var q, r := (n / 256) / p, (n / 256) % p;
    assert n / 256 == q * p + r;
    assert n == q * (256 * p) + (256 * r + n % 256);
    Base32.DivModUnique(n, 256 * p, q, 256 * r + n % 256);
  }

  /** Reading back the `w` low-order bytes of `n` gives `n` modulo `256^w`. */
  lemma {:induction false} ToBytesMod(n: nat, w: nat)
    ensures BigEndian(ToBytes(n, w)) == n % Pow256(w)
  {
    if w > 0 {
      var bs := ToBytes(n, w);
      assert bs[..w - 1] == ToBytes(n / 256, w - 1);
      ToBytesMod(n / 256, w - 1);
      ModByte(n, Pow256(w - 1));
    }
  }

  lemma BigEndianFour(a: byte, b: byte, c: byte, d: byte)
    ensures BigEndian([a, b, c, d]) == a as int * 0x100_0000 + b as int * 0x1_0000 + c as int * 0x100 + d
  {
    assert BigEndian([a]) == a by {
      assert [a][..0] == [];
    }
    assert BigEndian([a, b]) == 256 * a + b by {
      assert [a, b][..1] == [a];
    }
    assert BigEndian([a, b, c]) == 256 * (256 * a + b) + c by {
      assert [a, b, c][..2] == [a, b];
    }
    assert [a, b, c, d][..3] == [a, b, c];
  }

  // ---------------------------------------------------------------------------
  // HOTP.generate
  // ---------------------------------------------------------------------------

  /** `struct.pack('>Q', counter)`: eight big-endian bytes, an error outside [0, 2^64). */
  function CounterBytes(counter: int): (r: Result<seq<byte>, Error>)
    ensures r.Success? <==> 0 <= counter < CounterLimit
    ensures r.Failure? ==> r.error == CounterOutOfRange(counter)
    ensures r.Success? ==> |r.value| == 8
  {
    if 0 <= counter < CounterLimit then Success(ToBytes(counter, 8)) else Failure(CounterOutOfRange(counter))
  }

  /** The packed counter reads back as the counter: the message HMAC sees names the counter. */
  lemma CounterBytesInverse(counter: int)
    requires 0 <= counter < CounterLimit
    ensures BigEndian(CounterBytes(counter).value) == counter
  {
    ToBytesMod(counter, 8);
    assert Pow256(8) == CounterLimit;
  }

  /** Distinct counters are packed into distinct messages. */
  lemma CounterBytesInjective(c1: int, c2: int)
    requires CounterBytes(c1).Success? && CounterBytes(c2).Success?
    requires CounterBytes(c1).value == CounterBytes(c2).value
    ensures c1 == c2
  {
    CounterBytesInverse(c1);
    CounterBytesInverse(c2);
  }

  /**
   * `HOTP._dynamic_truncate`: the offset is the low four bits of the last
   * byte (`& 0x0F`); the four bytes there are read big-endian and the top
   * bit is cleared (`& 0x7FFFFFFF`).
   */
  function DynamicTruncate(h: Digest): (r: nat)
    ensures r < 0x8000_0000
  {
    var offset := h[19] % 16;
    BigEndian(h[offset..offset + 4]) % 0x8000_0000
  }

  /**
   * The dynamic binary code as RFC 4226 section 5.4 writes it: the byte at
   * the offset with its top bit masked, then the next three bytes, joined
   * by shifts. The offset is at most 15, so the four bytes lie within the
   * first 19.
   */
  function RfcTruncate(h: Digest): (r: nat) {
    var o := h[19] % 16;
    (h[o] % 128) as int * 0x100_0000 + h[o + 1] as int * 0x1_0000 + h[o + 2] as int * 0x100 + h[o + 3]
  }

  /** The code's truncation is the RFC's. */
  lemma TruncateFormula(h: Digest)
    ensures DynamicTruncate(h) == RfcTruncate(h)
  {
    var o := h[19] % 16;
    assert h[o..o + 4] == [h[o], h[o + 1], h[o + 2], h[o + 3]];
    BigEndianFour(h[o], h[o + 1], h[o + 2], h[o + 3]);
    var top: int := h[o];
    var rest: int := h[o + 1] as int * 0x1_0000 + h[o + 2] as int * 0x100 + h[o + 3];
    assert top == 128 * (top / 128) + top % 128;
    Base32.DivModUnique(BigEndian(h[o..o + 4]), 0x8000_0000, top / 128, (top % 128) * 0x100_0000 + rest);
  }

  /** `str(otp_value).zfill(digits)` with `otp_value = otp % 10 ** digits`. */
  function Format(otp: nat, digits: nat): string {
    ZeroFill(DecimalString(otp % Pow10(digits)), digits)
  }

  /** `HOTP.generate(secret, counter, digits)`. */
  function Generate(mac: Mac, secret: seq<byte>, counter: int, digits: nat): (r: Result<string, Error>) {
    match CounterBytes(counter)
    case Failure(e) => Failure(e)
    case Success(msg) => Success(Format(DynamicTruncate(mac(secret, msg)), digits))
  }

  /** A formatted code has exactly `digits` decimal digits and reads back as the value modulo `10^digits`. */
  lemma FormatShape(otp: nat, digits: nat)
    requires digits >= 1
    ensures var s := Format(otp, digits);
      |s| == digits && (forall k :: 0 <= k < |s| ==> IsDigit(s[k]))
      && DecimalValue(s) == otp % Pow10(digits)
  {
    var v := otp % Pow10(digits);
    var d := DecimalString(v);
    DecimalStringFacts(v, digits);
    ZeroFillAsRepeat(d, digits);
    LeadingZerosValue(digits - |d|, d);
  }

  /** With `digits == 0`, `10 ** 0 == 1` and the code is the single digit `0`. */
  lemma FormatNoDigits(otp: nat)
    ensures Format(otp, 0) == "0"
  {
    assert otp % Pow10(0) == 0;
  }

  /** `HOTP.generate` fails exactly for counters outside [0, 2^64), and otherwise returns the formatted truncation. */
  lemma GenerateShape(mac: Mac, secret: seq<byte>, counter: int, digits: nat)
    ensures Generate(mac, secret, counter, digits).Success? <==> 0 <= counter < CounterLimit
    ensures digits >= 1 && Generate(mac, secret, counter, digits).Success? ==>
      var s := Generate(mac, secret, counter, digits).value;
      |s| == digits && (forall k :: 0 <= k < |s| ==> IsDigit(s[k]))
      && DecimalValue(s) == DynamicTruncate(mac(secret, ToBytes(counter, 8))) % Pow10(digits)
  {
    if digits >= 1 && 0 <= counter < CounterLimit {
      FormatShape(DynamicTruncate(mac(secret, ToBytes(counter, 8))), digits);
    }
  }

  // ---------------------------------------------------------------------------
  // HOTP.verify and the shared look-up loop
  // ---------------------------------------------------------------------------

  /** The code for counter `counter + i`, with as many digits as the candidate `otp`. */
  function CodeAt(mac: Mac, secret: seq<byte>, otp: string, counter: int): int -> Result<string, Error> {
    i => Generate(mac, secret, counter + i, |otp|)
  }

  /**
   * Trying the offsets `i` from `lo` up to `hi` in order, where `code(i)` is
   * the code of counter `counter + i`: the first matching code accepts, the
   * first counter `generate` refuses raises, and running out of offsets
   * rejects.
   */
  function Scan(code: int -> Result<string, Error>, otp: string, lo: int, hi: int): Result<bool, Error>
    decreases hi - lo
  {
    if lo > hi then Success(false)
    else match code(lo)
      case Failure(e) => Failure(e)
      case Success(c) => if c == otp then Success(true) else Scan(code, otp, lo + 1, hi)
  }

  /**
   * When every offset of the range has a code, the scan succeeds, and it
   * accepts exactly when some offset of the range gives the candidate.
   */
  lemma {:induction false} ScanAccepts(code: int -> Result<string, Error>, otp: string, lo: int, hi: int)
    requires forall i :: lo <= i <= hi ==> code(i).Success?
    ensures Scan(code, otp, lo, hi).Success?
    ensures Scan(code, otp, lo, hi).value <==> exists i :: lo <= i <= hi && code(i) == Success(otp)
    decreases hi - lo
  {
    if lo <= hi {
      assert code(lo).Success?;
      ScanAccepts(code, otp, lo + 1, hi);
    }
  }

  /** The first offset whose code is an error ends the scan with that error. */
  lemma {:induction false} ScanRaises(code: int -> Result<string, Error>, otp: string, lo: int, hi: int, k: int)
    requires lo <= k <= hi && code(k).Failure?
    requires forall i :: lo <= i < k ==> code(i).Success? && code(i).value != otp
    ensures Scan(code, otp, lo, hi) == Failure(code(k).error)
    decreases k - lo
  {
    if lo < k {
      ScanRaises(code, otp, lo + 1, hi, k);
    }
  }

  /** Codes exist exactly for the counters `struct.pack('>Q')` accepts. */
  lemma CodeAtDefined(mac: Mac, secret: seq<byte>, otp: string, counter: int, i: int)
    ensures CodeAt(mac, secret, otp, counter)(i).Success? <==> 0 <= counter + i < CounterLimit
    ensures counter + i < 0 ==> CodeAt(mac, secret, otp, counter)(i) == Failure(CounterOutOfRange(counter + i))
  {
    GenerateShape(mac, secret, counter + i, |otp|);
  }

  /** `HOTP.verify(secret, otp, counter, window)`: look ahead from `counter` to `counter + window`. */
  method Verify(mac: Mac, secret: seq<byte>, otp: string, counter: int, window: int) returns (r: Result<bool, Error>)
    ensures r == Scan(CodeAt(mac, secret, otp, counter), otp, 0, window)
  {
    ghost var code := CodeAt(mac, secret, otp, counter);
    var i := 0;
    while i <= window
      invariant 0 <= i
      invariant Scan(code, otp, 0, window) == Scan(code, otp, i, window)
      decreases window - i
    {
      var c := Generate(mac, secret, counter + i, |otp|);
      assert c == code(i);
      if c.Failure? {
        return Failure(c.error);
      }
      if c.value == otp {
        return Success(true);
      }
      i := i + 1;
    }
    return Success(false);
  }

  /** Look-ahead only: `HOTP.verify` accepts exactly the codes of `counter` to `counter + window`. */
  lemma VerifyForward(mac: Mac, secret: seq<byte>, otp: string, counter: int, window: int)
    requires 0 <= counter && counter + window < CounterLimit
    ensures Scan(CodeAt(mac, secret, otp, counter), otp, 0, window).Success?
    ensures Scan(CodeAt(mac, secret, otp, counter), otp, 0, window).value
        <==> exists i :: 0 <= i <= window && CodeAt(mac, secret, otp, counter)(i) == Success(otp)
  {
    var code := CodeAt(mac, secret, otp, counter);
    forall i | 0 <= i <= window
      ensures code(i).Success?
    {
      CodeAtDefined(mac, secret, otp, counter, i);
    }
    ScanAccepts(code, otp, 0, window);
  }

  // ---------------------------------------------------------------------------
  // The test vectors of RFC 4226 Appendix D
  // ---------------------------------------------------------------------------

  /** The Appendix D secret, the ASCII bytes of "12345678901234567890". */
  const Rfc4226Secret: seq<byte> :=
    [0x31, 0x32, 0x33, 0x34, 0x35, 0x36, 0x37, 0x38, 0x39, 0x30,
     0x31, 0x32, 0x33, 0x34, 0x35, 0x36, 0x37, 0x38, 0x39, 0x30]

  /** The HMAC-SHA1 values Appendix D lists for that secret and the counters 0 to 4. */
  const Rfc4226Digest0: Digest :=
    [0xcc, 0x93, 0xcf, 0x18, 0x50, 0x8d, 0x94, 0x93, 0x4c, 0x64, 0xb6, 0x5d, 0x8b, 0xa7, 0x66, 0x7f, 0xb7, 0xcd, 0xe4, 0xb0]
  const Rfc4226Digest1: Digest :=
    [0x75, 0xa4, 0x8a, 0x19, 0xd4, 0xcb, 0xe1, 0x00, 0x64, 0x4e, 0x8a, 0xc1, 0x39, 0x7e, 0xea, 0x74, 0x7a, 0x2d, 0x33, 0xab]
  const Rfc4226Digest2: Digest :=
    [0x0b, 0xac, 0xb7, 0xfa, 0x08, 0x2f, 0xef, 0x30, 0x78, 0x22, 0x11, 0x93, 0x8b, 0xc1, 0xe5, 0xc7, 0x04, 0x16, 0xff, 0x44]
  const Rfc4226Digest3: Digest :=
    [0x66, 0xc2, 0x82, 0x27, 0xd0, 0x3a, 0x2d, 0x55, 0x29, 0x26, 0x2f, 0xf0, 0x16, 0xa1, 0xe6, 0xef, 0x76, 0x55, 0x7e, 0xce]
  const Rfc4226Digest4: Digest :=
    [0xa9, 0x04, 0xc9, 0x00, 0xa6, 0x4b, 0x35, 0x90, 0x98, 0x74, 0xb3, 0x3e, 0x61, 0xc5, 0x93, 0x8a, 0x8e, 0x15, 0xed, 0x1c]
  const Rfc4226Digests: seq<Digest> :=
    [Rfc4226Digest0, Rfc4226Digest1, Rfc4226Digest2, Rfc4226Digest3, Rfc4226Digest4]

  /** The truncated values Appendix D lists for the counters 0 to 4. */
  const Rfc4226Truncated: seq<nat> := [1284755224, 1094287082, 137359152, 1726969429, 1640338314]

  /** The six-digit codes Appendix D lists for the counters 0 to 4. */
  const Rfc4226Codes: seq<string> := ["755224", "287082", "359152", "969429", "338314"]

  /** Given the HMAC-SHA1 values of Appendix D, `generate` gives the published codes for counters 0 to 4. */
  lemma Rfc4226Vectors(mac: Mac)
    requires forall c: nat :: c < 5 ==> mac(Rfc4226Secret, ToBytes(c, 8)) == Rfc4226Digests[c]
    ensures forall c: nat :: c < 5 ==> Generate(mac, Rfc4226Secret, c, 6) == Success(Rfc4226Codes[c])
  {
    forall c: nat | c < 5
      ensures Generate(mac, Rfc4226Secret, c, 6) == Success(Rfc4226Codes[c])
    {
      assert mac(Rfc4226Secret, ToBytes(c, 8)) == Rfc4226Digests[c];
      VectorRow(c);
    }
  }

  /** Row `c` of Appendix D: the published digest truncates and formats to the published code. */
  lemma VectorRow(c: nat)
    requires c < 5
    ensures Format(DynamicTruncate(Rfc4226Digests[c]), 6) == Rfc4226Codes[c]
  {
    TruncateFormula(Rfc4226Digests[c]);
    TruncateRow(c);
    CodeRow(c);
    FormatSix(Rfc4226Truncated[c], Rfc4226Truncated[c] % 1_000_000, Rfc4226Codes[c]);
  }

  /** A six-digit code: the truncated value modulo `10^6`, already six digits long. */
  lemma FormatSix(truncated: nat, otp: nat, code: string)
    requires truncated % 1_000_000 == otp && DecimalString(otp) == code && |code| == 6
    ensures Format(truncated, 6) == code
  {
    assert Pow10(6) == 1_000_000;
  }

  /** The truncated values of Appendix D, computed as in section 5.4 of RFC 4226. */
  lemma TruncateRow(c: nat)
    requires c < 5
    ensures RfcTruncate(Rfc4226Digests[c]) == Rfc4226Truncated[c]
  {
    if c == 0 {
      TruncateRow0();
    } else if c == 1 {
      TruncateRow1();
    } else if c == 2 {
      TruncateRow2();
    } else if c == 3 {
      TruncateRow3();
    } else {
      TruncateRow4();
    }
  }

  /** The codes of Appendix D are the six low decimal digits of the truncated values. */
  lemma CodeRow(c: nat)
    requires c < 5
    ensures DecimalString(Rfc4226Truncated[c] % 1_000_000) == Rfc4226Codes[c] && |Rfc4226Codes[c]| == 6
  {
    if c == 0 {
      CodeRow0();
    } else if c == 1 {
      CodeRow1();
    } else if c == 2 {
      CodeRow2();
    } else if c == 3 {
      CodeRow3();
    } else {
      CodeRow4();
    }
  }

  lemma TruncateRow0() ensures RfcTruncate(Rfc4226Digest0) == 1284755224 {}

  lemma CodeRow0()
    ensures DecimalString(Rfc4226Truncated[0] % 1_000_000) == Rfc4226Codes[0] && |Rfc4226Codes[0]| == 6
  {
    assert Rfc4226Truncated[0] % 1_000_000 == 755224;
    assert Rfc4226Codes[0] == "755224";
    assert DecimalString(75) == "75";
    assert DecimalString(755) == "755";
    assert DecimalString(7552) == "7552";
    assert DecimalString(75522) == "75522";
    assert DecimalString(755224) == "755224";
  }

  lemma TruncateRow1() ensures RfcTruncate(Rfc4226Digest1) == 1094287082 {}

  lemma CodeRow1()
    ensures DecimalString(Rfc4226Truncated[1] % 1_000_000) == Rfc4226Codes[1] && |Rfc4226Codes[1]| == 6
  {
    assert Rfc4226Truncated[1] % 1_000_000 == 287082;
    assert Rfc4226Codes[1] == "287082";
    assert DecimalString(28) == "28";
    assert DecimalString(287) == "287";
    assert DecimalString(2870) == "2870";
    assert DecimalString(28708) == "28708";
    assert DecimalString(287082) == "287082";
  }

  lemma TruncateRow2() ensures RfcTruncate(Rfc4226Digest2) == 137359152 {}

  lemma CodeRow2()
    ensures DecimalString(Rfc4226Truncated[2] % 1_000_000) == Rfc4226Codes[2] && |Rfc4226Codes[2]| == 6
  {
    assert Rfc4226Truncated[2] % 1_000_000 == 359152;
    assert Rfc4226Codes[2] == "359152";
    assert DecimalString(35) == "35";
    assert DecimalString(359) == "359";
    assert DecimalString(3591) == "3591";
    assert DecimalString(35915) == "35915";
    assert DecimalString(359152) == "359152";
  }

  lemma TruncateRow3() ensures RfcTruncate(Rfc4226Digest3) == 1726969429 {}

  lemma CodeRow3()
    ensures DecimalString(Rfc4226Truncated[3] % 1_000_000) == Rfc4226Codes[3] && |Rfc4226Codes[3]| == 6
  {
    assert Rfc4226Truncated[3] % 1_000_000 == 969429;
    assert Rfc4226Codes[3] == "969429";
    assert DecimalString(96) == "96";
    assert DecimalString(969) == "969";
    assert DecimalString(9694) == "9694";
    assert DecimalString(96942) == "96942";
    assert DecimalString(969429) == "969429";
  }

  lemma TruncateRow4() ensures RfcTruncate(Rfc4226Digest4) == 1640338314 {}

  lemma CodeRow4()
    ensures DecimalString(Rfc4226Truncated[4] % 1_000_000) == Rfc4226Codes[4] && |Rfc4226Codes[4]| == 6
  {
    assert Rfc4226Truncated[4] % 1_000_000 == 338314;
    assert Rfc4226Codes[4] == "338314";
    assert DecimalString(33) == "33";
    assert DecimalString(338) == "338";
    assert DecimalString(3383) == "3383";
    assert DecimalString(33831) == "33831";
    assert DecimalString(338314) == "338314";
  }
}
