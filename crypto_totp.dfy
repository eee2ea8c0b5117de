/**
 * TOTP, the time-based one-time password of RFC 6238, as `crypto_core.TOTP`
 * computes it, and the `otpauth://` provisioning URI.
 *
 * The clock is not modelled: the Unix time is the parameter `timestamp`.
 * Percent-encoding (`urllib.parse.quote(..., safe='')`) is the parameter
 * `quote`.
 */
module Totp {
  import opened Wrappers
  import opened Text
  import Base32
  import Hotp

  type byte = Base32.byte

  /** `TOTP.DEFAULT_PERIOD`: thirty-second time steps. */
  const DefaultPeriod: int := 30

  // ---------------------------------------------------------------------------
  // The time step
  // ---------------------------------------------------------------------------

  /** Python's `a // b`: the quotient rounded towards minus infinity. */
  function FloorDiv(a: int, b: int): (q: int)
    requires b != 0
    ensures b > 0 ==> b * q <= a < b * q + b
    ensures b < 0 ==> b * q + b < a <= b * q
  {
    if b > 0 then a / b else (-a) / (-b)
  }

  /** `timestamp // period`, which raises `ZeroDivisionError` for a zero period. */
  function TimeStep(timestamp: int, period: int): Result<int, Hotp.Error> {
    if period == 0 then Failure(Hotp.ZeroPeriod) else Success(FloorDiv(timestamp, period))
  }

  /** For a positive period, the time step is the `k` whose interval `[k * period, (k + 1) * period)` holds the time. */
  lemma TimeStepInterval(timestamp: int, period: int, k: int)
    requires period > 0
    ensures TimeStep(timestamp, period) == Success(k) <==> k * period <= timestamp < k * period + period
  {
    var q := FloorDiv(timestamp, period);
    if k * period <= timestamp < k * period + period {
      Base32.DivModUnique(timestamp, period, k, timestamp - k * period);
      Base32.DivModUnique(timestamp, period, q, timestamp - q * period);
    }
  }

  // ---------------------------------------------------------------------------
  // TOTP.generate and TOTP.verify
  // ---------------------------------------------------------------------------

  /** `TOTP.generate(secret, digits, period, timestamp)`: HOTP at the current time step. */
  function Generate(mac: Hotp.Mac, secret: seq<byte>, digits: nat, period: int, timestamp: int): Result<string, Hotp.Error> {
    match TimeStep(timestamp, period)
    case Failure(e) => Failure(e)
    case Success(counter) => Hotp.Generate(mac, secret, counter, digits)
  }

  /** All times of one step share one code: the HOTP code of that step's number. */
  lemma GenerateInStep(mac: Hotp.Mac, secret: seq<byte>, digits: nat, period: int, timestamp: int, k: int)
    requires period > 0 && k * period <= timestamp < k * period + period
    ensures Generate(mac, secret, digits, period, timestamp) == Hotp.Generate(mac, secret, k, digits)
  {
    TimeStepInterval(timestamp, period, k);
  }

  /**
   * What `TOTP.verify` returns: the offsets `-window` to `window` around the
   * current time step are tried in order, as `HOTP.verify` tries its look-ahead.
   */
  function Verification(mac: Hotp.Mac, secret: seq<byte>, otp: string, period: int, window: int, timestamp: int): Result<bool, Hotp.Error> {
    match TimeStep(timestamp, period)
    case Failure(e) => Failure(e)
    case Success(counter) => Hotp.Scan(Hotp.CodeAt(mac, secret, otp, counter), otp, -window, window)
  }

  /** `TOTP.verify(secret, otp, period, window, timestamp)`. */
  method Verify(mac: Hotp.Mac, secret: seq<byte>, otp: string, period: int, window: int, timestamp: int)
    returns (r: Result<bool, Hotp.Error>)
    ensures r == Verification(mac, secret, otp, period, window, timestamp)
  {
    if period == 0 {
      return Failure(Hotp.ZeroPeriod);
    }
    var counter := FloorDiv(timestamp, period);
    ghost var code := Hotp.CodeAt(mac, secret, otp, counter);
    var i := -window;
    while i <= window
      invariant -window <= i
      invariant Hotp.Scan(code, otp, -window, window) == Hotp.Scan(code, otp, i, window)
      decreases window - i
    {
      var c := Hotp.Generate(mac, secret, counter + i, |otp|);
      assert c == code(i);
      if c.Failure? {
        return Failure(c.error);
      }
      if c.value == otp {
        return Success(true);
      }
      i := i + 1;
    }
    return Success(false);
  }

  /**
   * Away from the ends of the counter range, `TOTP.verify` accepts exactly the
   * codes of the time steps from `window` steps before to `window` steps after
   * the current one.
   */
  lemma VerifySymmetric(mac: Hotp.Mac, secret: seq<byte>, otp: string, period: int, window: int, timestamp: int)
    requires period != 0
    requires 0 <= FloorDiv(timestamp, period) - window && FloorDiv(timestamp, period) + window < Hotp.CounterLimit
    ensures Verification(mac, secret, otp, period, window, timestamp).Success?
    ensures Verification(mac, secret, otp, period, window, timestamp).value
        <==> exists i :: -window <= i <= window && Hotp.CodeAt(mac, secret, otp, FloorDiv(timestamp, period))(i) == Success(otp)
  {
    var counter := FloorDiv(timestamp, period);
    var code := Hotp.CodeAt(mac, secret, otp, counter);
    forall i | -window <= i <= window
      ensures code(i).Success?
    {
      Hotp.CodeAtDefined(mac, secret, otp, counter, i);
    }
    Hotp.ScanAccepts(code, otp, -window, window);
  }

  /** The code of the current time step is accepted for every window from 0 up. */
  lemma VerifyAcceptsCurrent(mac: Hotp.Mac, secret: seq<byte>, otp: string, period: int, window: int, timestamp: int)
    requires period != 0 && window >= 0
    requires 0 <= FloorDiv(timestamp, period) - window && FloorDiv(timestamp, period) + window < Hotp.CounterLimit
    requires Generate(mac, secret, |otp|, period, timestamp) == Success(otp)
    ensures Verification(mac, secret, otp, period, window, timestamp) == Success(true)
  {
    VerifySymmetric(mac, secret, otp, period, window, timestamp);
    assert Hotp.CodeAt(mac, secret, otp, FloorDiv(timestamp, period))(0) == Success(otp);
  }

  /** A negative window gives an empty range: nothing is accepted and nothing raises. */
  lemma VerifyNegativeWindow(mac: Hotp.Mac, secret: seq<byte>, otp: string, period: int, window: int, timestamp: int)
    requires period != 0 && window < 0
    ensures Verification(mac, secret, otp, period, window, timestamp) == Success(false)
  {
  }

  /** Near the epoch the window reaches a negative counter, and `struct.pack` raises for it. */
  lemma VerifyBeforeEpoch(mac: Hotp.Mac, secret: seq<byte>, otp: string, period: int, window: int, timestamp: int)
    requires period != 0 && FloorDiv(timestamp, period) - window < 0 <= window
    ensures Verification(mac, secret, otp, period, window, timestamp).Failure?
  {
    var counter := FloorDiv(timestamp, period);
    var code := Hotp.CodeAt(mac, secret, otp, counter);
    var k := -counter;
    if counter - window < 0 {
      k := -window;
    }
    assert -window <= k <= window;
    Hotp.CodeAtDefined(mac, secret, otp, counter, -window);
    Hotp.ScanRaises(code, otp, -window, window, -window);
  }

  // ---------------------------------------------------------------------------
  // TOTP.get_provisioning_uri
  // ---------------------------------------------------------------------------

  /** The secret as the URI carries it: Base32 without the `=` padding. */
  function SecretField(secret: seq<byte>): string {
    RStripChar(Base32.Encoding(secret), '=')
  }

  /** `issuer:account`, each percent-encoded. */
  function Label(account: string, issuer: string, quote: string -> string): string {
    quote(issuer) + ":" + quote(account)
  }

  /** The query string of the URI. */
  function Params(secret: seq<byte>, issuer: string, digits: int, period: int, quote: string -> string): string {
    "secret=" + SecretField(secret) + "&issuer=" + quote(issuer)
      + "&digits=" + IntString(digits) + "&period=" + IntString(period)
  }

  /** `TOTP.get_provisioning_uri(secret, account_name, issuer, digits, period)`. */
  function ProvisioningUri(secret: seq<byte>, account: string, issuer: string, digits: int, period: int, quote: string -> string): string {
    "otpauth://totp/" + Label(account, issuer, quote) + "?" + Params(secret, issuer, digits, period, quote)
  }

  /** The characters `quote(s, safe='')` can produce: unreserved characters and `%`. */
  predicate UriSafe(s: string) {
    forall k :: 0 <= k < |s| ==>
      'A' <= s[k] <= 'Z' || 'a' <= s[k] <= 'z' || '0' <= s[k] <= '9' || s[k] in "-._~%"
  }

  /** The unpadded secret decodes back to the secret, and holds only alphabet symbols. */
  lemma SecretFieldDecodes(secret: seq<byte>)
    ensures Base32.Decoding(SecretField(secret)) == Success(secret)
    ensures Base32.AllSymbols(SecretField(secret))
  {
    Base32.NormalizeEncoding(secret);
    Base32.RoundTrip(secret);
    Base32.EncodingShape(secret);
  }

  lemma IntStringChars(i: int)
    ensures forall k :: 0 <= k < |IntString(i)| ==> IntString(i)[k] == '-' || IsDigit(IntString(i)[k])
  {
    var d := DecimalString(if i < 0 then -i else i);
    DecimalStringFacts(if i < 0 then -i else i, 1);
    if i < 0 {
      assert IntString(i) == "-" + d;
    }
  }

  /** Neither separator of the query occurs inside one of its values. */
  lemma ValuesFree(secret: seq<byte>, issuer: string, digits: int, period: int, quote: string -> string, c: char)
    requires UriSafe(quote(issuer)) && (c == '&' || c == '?')
    ensures c !in SecretField(secret) && c !in quote(issuer) && c !in IntString(digits) && c !in IntString(period)
  {
    SecretFieldFree(secret, c);
    IntStringFree(digits, c);
    IntStringFree(period, c);
  }

  lemma SecretFieldFree(secret: seq<byte>, c: char)
    requires Base32.SymbolIndex(c).None?
    ensures c !in SecretField(secret)
  {
    SecretFieldDecodes(secret);
  }

  lemma IntStringFree(i: int, c: char)
    requires c != '-' && !IsDigit(c)
    ensures c !in IntString(i)
  {
    IntStringChars(i);
  }

  /** The query splits on `&` into the secret, issuer, digits and period fields, and has no `?`. */
  lemma ParamsFields(secret: seq<byte>, issuer: string, digits: int, period: int, quote: string -> string)
    requires UriSafe(quote(issuer))
    ensures Split(Params(secret, issuer, digits, period, quote), '&')
      == ["secret=" + SecretField(secret), "issuer=" + quote(issuer),
          "digits=" + IntString(digits), "period=" + IntString(period)]
    ensures '?' !in Params(secret, issuer, digits, period, quote)
  {
    ValuesFree(secret, issuer, digits, period, quote, '&');
    ValuesFree(secret, issuer, digits, period, quote, '?');
    QuerySplit(SecretField(secret), quote(issuer), IntString(digits), IntString(period));
    QueryNoQuestion(SecretField(secret), quote(issuer), IntString(digits), IntString(period));
  }

  /** The parameter names hold neither separator. */
  lemma KeysFree(c: char)
    requires c == '&' || c == '?'
    ensures c !in "secret=" && c !in "issuer=" && c !in "digits=" && c !in "period="
  {
  }

  /** The query text with its four values splits on `&` into the four fields. */
  lemma QuerySplit(b32: string, qi: string, ds: string, ps: string)
    requires '&' !in b32 && '&' !in qi && '&' !in ds && '&' !in ps
    ensures Split("secret=" + b32 + "&issuer=" + qi + "&digits=" + ds + "&period=" + ps, '&')
      == ["secret=" + b32, "issuer=" + qi, "digits=" + ds, "period=" + ps]
  {
    var f0, f1, f2, f3 := "secret=" + b32, "issuer=" + qi, "digits=" + ds, "period=" + ps;
    QueryRegroup(b32, qi, ds, ps);
    KeysFree('&');
    FreeConcat("secret=", b32, '&');
    FreeConcat("issuer=", qi, '&');
    FreeConcat("digits=", ds, '&');
    FreeConcat("period=", ps, '&');
    SplitQuad(f0, f1, f2, f3, '&');
  }

  /** The query text has no `?` when its values have none. */
  lemma QueryNoQuestion(b32: string, qi: string, ds: string, ps: string)
    requires '?' !in b32 && '?' !in qi && '?' !in ds && '?' !in ps
    ensures '?' !in "secret=" + b32 + "&issuer=" + qi + "&digits=" + ds + "&period=" + ps
  {
    var f0, f1, f2, f3 := "secret=" + b32, "issuer=" + qi, "digits=" + ds, "period=" + ps;
    QueryRegroup(b32, qi, ds, ps);
    KeysFree('?');
    FreeConcat("secret=", b32, '?');
    FreeConcat("issuer=", qi, '?');
    FreeConcat("digits=", ds, '?');
    FreeConcat("period=", ps, '?');
    FreeConcat(f0, ['&'], '?');
    FreeConcat(f0 + ['&'], f1, '?');
    FreeConcat(f0 + ['&'] + f1, ['&'], '?');
    FreeConcat(f0 + ['&'] + f1 + ['&'], f2, '?');
    FreeConcat(f0 + ['&'] + f1 + ['&'] + f2, ['&'], '?');
    FreeConcat(f0 + ['&'] + f1 + ['&'] + f2 + ['&'], f3, '?');
  }

  lemma QueryRegroup(b32: string, qi: string, ds: string, ps: string)
    ensures "secret=" + b32 + "&issuer=" + qi + "&digits=" + ds + "&period=" + ps
      == ("secret=" + b32) + ['&'] + ("issuer=" + qi) + ['&'] + ("digits=" + ds) + ['&'] + ("period=" + ps)
  {
    assert "&issuer=" == ['&'] + "issuer=";
    assert "&digits=" == ['&'] + "digits=";
    assert "&period=" == ['&'] + "period=";
  }

  /** Neither percent-encoded name holds `?`, so the label is everything before the first `?`. */
  lemma LabelFields(account: string, issuer: string, quote: string -> string)
    requires UriSafe(quote(issuer)) && UriSafe(quote(account))
    ensures '?' !in Label(account, issuer, quote)
    ensures Split(Label(account, issuer, quote), ':') == [quote(issuer), quote(account)]
  {
    var qi, qa := quote(issuer), quote(account);
    assert ':' !in qi && ':' !in qa && '?' !in qi && '?' !in qa;
    FreeConcat(qi, ":", '?');
    FreeConcat(qi + ":", qa, '?');
    assert Label(account, issuer, quote) == qi + [':'] + qa;
    SplitPair(qi, qa, ':');
  }

  /**
   * The URI reads back as it was written: after the `otpauth://totp/` prefix,
   * splitting on `?` gives the label and the query, the label splits on `:`
   * into issuer and account, the query splits on `&` into its four fields, and
   * the secret field decodes to the secret. This holds whenever `quote`
   * produces only the characters percent-encoding can produce.
   */
  lemma ProvisioningUriFields(secret: seq<byte>, account: string, issuer: string, digits: int, period: int, quote: string -> string)
    requires UriSafe(quote(issuer)) && UriSafe(quote(account))
    ensures var uri := ProvisioningUri(secret, account, issuer, digits, period, quote);
      && uri[..15] == "otpauth://totp/"
      && Split(uri[15..], '?') == [Label(account, issuer, quote), Params(secret, issuer, digits, period, quote)]
      && Split(Label(account, issuer, quote), ':') == [quote(issuer), quote(account)]
      && Split(Params(secret, issuer, digits, period, quote), '&')
          == ["secret=" + SecretField(secret), "issuer=" + quote(issuer),
              "digits=" + IntString(digits), "period=" + IntString(period)]
      && Base32.Decoding(SecretField(secret)) == Success(secret)
  {
    var tag := Label(account, issuer, quote);
    var params := Params(secret, issuer, digits, period, quote);
    LabelFields(account, issuer, quote);
    ParamsFields(secret, issuer, digits, period, quote);
    SecretFieldDecodes(secret);
    UriParts("otpauth://totp/", tag, params);
  }

  /** A prefix, a `?`-free label, `?` and a `?`-free query: the prefix comes back, and the rest splits on `?`. */
  lemma UriParts(prefix: string, tag: string, params: string)
    requires '?' !in tag && '?' !in params
    ensures var uri := prefix + tag + "?" + params;
      uri[..|prefix|] == prefix && Split(uri[|prefix|..], '?') == [tag, params]
  {
    var uri := prefix + tag + "?" + params;
    assert uri == prefix + (tag + ['?'] + params);
    SplitPair(tag, params, '?');
  }
}
