/**
 * The Base32 codec of RFC 4648 section 6, written as a bit-buffer loop.
 *
 * `Encoding` and `Decoding` are the specification: they describe the
 * output through the bit string of the input (eight big-endian bits per
 * byte, five per symbol). `Encode` and `Decode` are the loops, which keep an
 * unbounded integer `value` and a count `bits` of its low-order bits still
 * to be emitted, and are proved to compute the specification.
 */
module Base32 {
  import opened Wrappers
  import opened Text

  type byte = x: int | 0 <= x < 256

  /** The 32-symbol alphabet of RFC 4648 section 6. */
  const Alphabet: string := "ABCDEFGHIJKLMNOPQRSTUVWXYZ234567"

  /** The position of `c` in the alphabet: the reverse mapping `decode` builds. */
  function SymbolIndex(c: char): (r: Option<nat>)
    ensures r.Some? ==> r.value < 32
  {
    if 'A' <= c <= 'Z' then Some(c as int - 'A' as int)
    else if '2' <= c <= '7' then Some(26 + c as int - '2' as int)
    else None
  }

  /** Symbol `i` of the alphabet, computed. */
  function AlphabetChar(i: int): char
    requires 0 <= i < 32
  {
    if i < 26 then ('A' as int + i) as char else ('2' as int + i - 26) as char
  }

  lemma AlphabetSpelledOut()
    ensures Alphabet == seq(32, i requires 0 <= i < 32 => AlphabetChar(i))
  {
  }

  /** Exactly the symbols of the alphabet are found, each at its own position. */
  lemma SymbolIndexInverse(c: char)
    ensures SymbolIndex(c).Some? <==> c in Alphabet
    ensures SymbolIndex(c).Some? ==> Alphabet[SymbolIndex(c).value] == c
  {
    var r := SymbolIndex(c);
    if r.Some? {
      AlphabetSpelledOut();
      assert Alphabet[r.value] == AlphabetChar(r.value);
    }
    if c in Alphabet {
      var i :| 0 <= i < |Alphabet| && Alphabet[i] == c;
      SymbolIndexOfAlphabet(i);
    }
  }

  /** Looking a symbol up finds its own position. */
  lemma SymbolIndexOfAlphabet(i: nat)
    requires i < 32
    ensures SymbolIndex(Alphabet[i]) == Some(i)
  {
    AlphabetSpelledOut();
    assert Alphabet[i] == AlphabetChar(i);
  }

  // ---------------------------------------------------------------------------
  // Arithmetic on the bit buffer
  // ---------------------------------------------------------------------------

  function Pow2(n: nat): (r: nat)
    ensures r >= 1
  {
    if n == 0 then 1 else 2 * Pow2(n - 1)
  }

  /** `v << n`. */
  function Shl(v: nat, n: nat): nat {
    if n == 0 then v else 2 * Shl(v, n - 1)
  }

  /** `v >> n`. */
  function Shr(v: nat, n: nat): nat {
    if n == 0 then v else Shr(v / 2, n - 1)
  }

  /** A left shift is a multiplication by a power of two. */
  lemma {:induction false} ShlIsMul(v: nat, n: nat)
    ensures Shl(v, n) == v * Pow2(n)
  {
    if n > 0 {
      ShlIsMul(v, n - 1);
      DoubleScale(v, Pow2(n - 1));
    }
  }

  lemma DoubleScale(x: nat, p: nat)
    ensures x * (2 * p) == 2 * (x * p)
  {
  }

  lemma ShlByte(v: nat)
    ensures Shl(v, 8) == v * 256
  {
    ShlIsMul(v, 8);
    assert Pow2(8) == 256;
  }

  lemma ShlSymbol(v: nat)
    ensures Shl(v, 5) == v * 32
  {
    ShlIsMul(v, 5);
    assert Pow2(5) == 32;
  }

  /** Euclidean division is determined by a quotient and an in-range remainder. */
  lemma DivModUnique(x: int, d: int, q: int, r: int)
    requires d > 0 && 0 <= r < d && x == q * d + r
    ensures x / d == q && x % d == r
  {
    var q', r' := x / d, x % d;
    assert x == q' * d + r';
    assert (q - q') * d == r' - r;
    if q > q' {
      assert (q - q') * d >= d by { MulAtLeast(q - q', d); }
    } else if q < q' {
      assert (q' - q) * d >= d by { MulAtLeast(q' - q, d); }
    }
  }

  lemma MulAtLeast(a: int, d: int)
    requires a >= 1 && d > 0
    ensures a * d >= d
  {
  }

  /** Dividing by `2p` is halving, then dividing by `p`; the remainder comes
      from the last bit and the remainder of the rest modulo `p`. */
  lemma ModDouble(n: nat, p: nat)
    requires p > 0
    ensures n / (2 * p) == (n / 2) / p
    ensures n % (2 * p) == 2 * ((n / 2) % p) + n % 2
  {
    var q, r := (n / 2) / p, (n / 2) % p;
    assert n / 2 == q * p + r;
    assert n == q * (2 * p) + (2 * r + n % 2);
    DivModUnique(n, 2 * p, q, 2 * r + n % 2);
  }

  // ---------------------------------------------------------------------------
  // Bit strings
  // ---------------------------------------------------------------------------

  /** The number a big-endian bit string stands for. */
  function BitsValue(bs: seq<bool>): nat {
    if |bs| == 0 then 0 else 2 * BitsValue(bs[..|bs| - 1]) + (if bs[|bs| - 1] then 1 else 0)
  }

  /** The `w` low-order bits of `n`, most significant first. */
  function ToBits(n: nat, w: nat): (r: seq<bool>)
    ensures |r| == w
  {
    if w == 0 then [] else ToBits(n / 2, w - 1) + [n % 2 == 1]
  }

  function Zeros(n: nat): (r: seq<bool>)
    ensures |r| == n
  {
    if n == 0 then [] else Zeros(n - 1) + [false]
  }

  lemma {:induction false} BitsValueBound(bs: seq<bool>)
    ensures BitsValue(bs) < Pow2(|bs|)
  {
    if |bs| > 0 {
      BitsValueBound(bs[..|bs| - 1]);
    }
  }

  /** The low `w` bits of `n` stand for `n` modulo `2^w`. */
  lemma {:induction false} ToBitsMod(n: nat, w: nat)
    ensures BitsValue(ToBits(n, w)) == n % Pow2(w)
  {
    if w > 0 {
      var bs := ToBits(n, w);
      assert bs[..w - 1] == ToBits(n / 2, w - 1);
      ToBitsMod(n / 2, w - 1);
      ModDouble(n, Pow2(w - 1));
    }
  }

  /** `ToBits` then `BitsValue` gives back a number that fits. */
  lemma ToBitsValue(n: nat, w: nat)
    requires n < Pow2(w)
    ensures BitsValue(ToBits(n, w)) == n
  {
    ToBitsMod(n, w);
  }

  lemma Pow2Constants()
    ensures Pow2(5) == 32 && Pow2(8) == 256
  {
  }

  /** The value of the low five bits of `n`. */
  lemma SymbolBitsMod(n: nat)
    ensures BitsValue(ToBits(n, 5)) == n % 32
  {
    ToBitsMod(n, 5);
    Pow2Constants();
  }

  /** The symbol index the low five bits of `n` stand for. */
  lemma QuintetOf(n: nat)
    ensures Quintet(ToBits(n, 5)) == n % 32
  {
    SymbolBitsMod(n);
  }

  /** The value of the low eight bits of `n`. */
  lemma ByteBitsMod(n: nat)
    ensures BitsValue(ToBits(n, 8)) == n % 256
  {
    ToBitsMod(n, 8);
    Pow2Constants();
  }

  /** `BitsValue` then `ToBits` gives the bit string back. */
  lemma {:induction false} ValueToBits(bs: seq<bool>)
    ensures ToBits(BitsValue(bs), |bs|) == bs
  {
    if |bs| > 0 {
      var init := bs[..|bs| - 1];
      ValueToBits(init);
      assert BitsValue(bs) / 2 == BitsValue(init);
      assert bs == init + [bs[|bs| - 1]];
    }
  }

  lemma {:induction false} ZeroBits(n: nat)
    ensures ToBits(0, n) == Zeros(n)
  {
    if n > 0 {
      ZeroBits(n - 1);
      assert Zeros(n) == Zeros(n - 1) + [false];
    }
  }

  /** Shifting `v` left by `w` and adding `x < 2^w` appends the bits of `x`. */
  lemma {:induction false} ShlBits(v: nat, k: nat, x: nat, w: nat)
    requires x < Pow2(w)
    ensures ToBits(Shl(v, w) + x, k + w) == ToBits(v, k) + ToBits(x, w)
  {
    if w > 0 {
      var n := Shl(v, w) + x;
      assert n / 2 == Shl(v, w - 1) + x / 2 && n % 2 == x % 2;
      ShlBits(v, k, x / 2, w - 1);
    }
  }

  /** Shifting `v` left by `z` appends `z` zero bits. */
  lemma ShlZeros(v: nat, k: nat, z: nat)
    ensures ToBits(Shl(v, z), k + z) == ToBits(v, k) + Zeros(z)
  {
    ShlBits(v, k, 0, z);
    ZeroBits(z);
  }

  /** The low `k` bits of `v` are the `k - j` bits of `v >> j` followed by its `j` lowest bits. */
  lemma {:induction false} ShrBits(v: nat, k: nat, j: nat)
    requires j <= k
    ensures ToBits(v, k) == ToBits(Shr(v, j), k - j) + ToBits(v, j)
  {
    if j > 0 {
      ShrBits(v / 2, k - 1, j - 1);
    }
  }

  // ---------------------------------------------------------------------------
  // Specification of encoding
  // ---------------------------------------------------------------------------

  /** The input as a bit string: eight bits per byte, most significant first. */
  function DataBits(data: seq<byte>): (r: seq<bool>)
  {
    if |data| == 0 then [] else ToBits(data[0], 8) + DataBits(data[1..])
  }

  lemma {:induction false} DataBitsAppend(a: seq<byte>, b: seq<byte>)
    ensures DataBits(a + b) == DataBits(a) + DataBits(b)
  {
    if |a| > 0 {
      assert (a + b)[1..] == a[1..] + b;
      DataBitsAppend(a[1..], b);
    } else {
      assert a + b == b;
    }
  }

  /** The value of one five-bit group, a symbol index. */
  function Quintet(bs: seq<bool>): (r: nat)
    requires |bs| == 5
    ensures r < 32
  {
    BitsValueBound(bs);
    BitsValue(bs)
  }

  /** The symbols for the bit string cut into five-bit groups, the last group filled up with zero bits. */
  function SymbolsOf(bits: seq<bool>): (r: string)
    decreases |bits|
  {
    if |bits| == 0 then []
    else if |bits| < 5 then [Alphabet[Quintet(bits + Zeros(5 - |bits|))]]
    else [Alphabet[Quintet(bits[..5])]] + SymbolsOf(bits[5..])
  }

  /** Cutting `e + p` into groups, where `e` holds `g` whole groups. */
  lemma {:induction false} SymbolsOfAppend(e: seq<bool>, p: seq<bool>, g: nat)
    requires |e| == 5 * g
    ensures SymbolsOf(e + p) == SymbolsOf(e) + SymbolsOf(p)
    decreases g
  {
    if g > 0 {
      assert (e + p)[..5] == e[..5];
      assert (e + p)[5..] == e[5..] + p;
      SymbolsOfAppend(e[5..], p, g - 1);
    } else {
      assert e + p == p;
    }
  }

  /** The data symbols of the encoding, before padding. */
  function DataSymbols(data: seq<byte>): string {
    SymbolsOf(DataBits(data))
  }

  /** The number of `=` that brings `m` symbols to a multiple of eight. */
  function PadLength(m: nat): (r: nat)
    ensures r < 8 && (m + r) % 8 == 0
  {
    (8 - m % 8) % 8
  }

  /** The padding loop stops exactly at `PadLength`. */
  lemma PadLengthUnique(m: nat, k: nat)
    requires k <= PadLength(m) && (m + k) % 8 == 0
    ensures k == PadLength(m)
  {
  }

  /** `Base32.encode`: the data symbols followed by `=` up to a multiple of eight. */
  function Encoding(data: seq<byte>): string {
    var s := DataSymbols(data);
    s + Repeat('=', PadLength(|s|))
  }

  // ---------------------------------------------------------------------------
  // Specification of decoding
  // ---------------------------------------------------------------------------

  /** `encoded.rstrip('=').upper()`. */
  function Normalize(encoded: string): string {
    Upper(RStripChar(encoded, '='))
  }

  predicate AllSymbols(text: string) {
    forall k :: 0 <= k < |text| ==> SymbolIndex(text[k]).Some?
  }

  /** The first character outside the alphabet, the one `decode` reports. */
  function FirstInvalid(text: string): (r: Option<char>)
    ensures r.None? <==> AllSymbols(text)
    ensures r.Some? ==> r.value in text && SymbolIndex(r.value).None?
  {
    if |text| == 0 then None
    else if SymbolIndex(text[0]).None? then Some(text[0])
    else FirstInvalid(text[1..])
  }

  /** Five bits per symbol. */
  function SymbolBits(text: string): (r: seq<bool>)
    requires AllSymbols(text)
  {
    if |text| == 0 then [] else ToBits(SymbolIndex(text[0]).value, 5) + SymbolBits(text[1..])
  }

  lemma {:induction false} SymbolBitsAppend(a: string, b: string)
    requires AllSymbols(a) && AllSymbols(b)
    ensures AllSymbols(a + b) && SymbolBits(a + b) == SymbolBits(a) + SymbolBits(b)
  {
    assert AllSymbols(a + b) by {
      forall k | 0 <= k < |a + b| ensures SymbolIndex((a + b)[k]).Some? {
        if k >= |a| { assert (a + b)[k] == b[k - |a|]; }
      }
    }
    if |a| > 0 {
      assert (a + b)[1..] == a[1..] + b;
      SymbolBitsAppend(a[1..], b);
    } else {
      assert a + b == b;
    }
  }

  /** The value of one eight-bit group. */
  function Octet(bs: seq<bool>): (r: byte)
    requires |bs| == 8
  {
    BitsValueBound(bs);
    Pow2Constants();
    BitsValue(bs)
  }

  /** The bit string cut into bytes; a final group of fewer than eight bits is dropped. */
  function Octets(bits: seq<bool>): (r: seq<byte>)
    decreases |bits|
  {
    if |bits| < 8 then [] else [Octet(bits[..8])] + Octets(bits[8..])
  }

  /** Cutting `e + p` into bytes, where `e` holds `g` whole bytes. */
  lemma {:induction false} OctetsAppend(e: seq<bool>, p: seq<bool>, g: nat)
    requires |e| == 8 * g
    ensures Octets(e + p) == Octets(e) + Octets(p)
    decreases g
  {
    if g > 0 {
      assert (e + p)[..8] == e[..8];
      assert (e + p)[8..] == e[8..] + p;
      OctetsAppend(e[8..], p, g - 1);
    } else {
      assert e + p == p;
    }
  }

  /** Decoding normalized text: the error is the first character outside the alphabet. */
  function SymbolDecoding(text: string): Result<seq<byte>, char> {
    match FirstInvalid(text)
    case Some(c) => Failure(c)
    case None => Success(Octets(SymbolBits(text)))
  }

  /** `Base32.decode`. */
  function Decoding(encoded: string): Result<seq<byte>, char> {
    SymbolDecoding(Normalize(encoded))
  }

  // ---------------------------------------------------------------------------
  // The loops
  // ---------------------------------------------------------------------------

  lemma EncodeAbsorb(data: seq<byte>, i: nat, emitted: seq<bool>, pending: seq<bool>)
    requires i < |data| && DataBits(data[..i]) == emitted + pending
    ensures DataBits(data[..i + 1]) == emitted + (pending + ToBits(data[i], 8))
  {
    DataBitsAppend(data[..i], [data[i]]);
    assert data[..i + 1] == data[..i] + [data[i]];
    assert DataBits([data[i]]) == ToBits(data[i], 8) + DataBits([]);
  }

  /** Moving `n` bits from the front of `pending` to the end of `emitted`. */
  lemma ShiftBits(emitted: seq<bool>, pending: seq<bool>, n: nat)
    requires n <= |pending|
    ensures (emitted + pending[..n]) + pending[n..] == emitted + pending
  {
    assert pending[..n] + pending[n..] == pending;
  }

  lemma EncodeEmit(emitted: seq<bool>, group: seq<bool>, g: nat)
    requires |emitted| == 5 * g && |group| == 5
    ensures SymbolsOf(emitted + group) == SymbolsOf(emitted) + [Alphabet[Quintet(group)]]
  {
    assert SymbolsOf(group) == [Alphabet[Quintet(group)]] by {
      assert group[..5] == group && group[5..] == [];
    }
    SymbolsOfAppend(emitted, group, g);
  }

  lemma EncodeFlush(emitted: seq<bool>, pending: seq<bool>, g: nat)
    requires |emitted| == 5 * g && 0 < |pending| < 5
    ensures SymbolsOf(emitted + pending)
         == SymbolsOf(emitted) + [Alphabet[Quintet(pending + Zeros(5 - |pending|))]]
  {
    SymbolsOfAppend(emitted, pending, g);
  }

  lemma DecodeAbsorb(text: string, i: nat, emitted: seq<bool>, pending: seq<bool>)
    requires i < |text| && AllSymbols(text[..i]) && SymbolIndex(text[i]).Some?
    requires SymbolBits(text[..i]) == emitted + pending
    ensures AllSymbols(text[..i + 1])
    ensures SymbolBits(text[..i + 1]) == emitted + (pending + ToBits(SymbolIndex(text[i]).value, 5))
  {
    var c, prefix := text[i], text[..i];
    var bits := ToBits(SymbolIndex(c).value, 5);
    assert text[..i + 1] == prefix + [c];
    assert [c][1..] == [];
    assert SymbolBits([c]) == bits + SymbolBits([]);
    SymbolBitsAppend(prefix, [c]);
    ConcatAssoc(emitted, pending, bits);
  }

  lemma DecodeEmit(emitted: seq<bool>, group: seq<bool>, g: nat)
    requires |emitted| == 8 * g && |group| == 8
    ensures Octets(emitted + group) == Octets(emitted) + [Octet(group)]
  {
    assert Octets(group) == [Octet(group)] by {
      assert group[..8] == group && group[8..] == [];
    }
    OctetsAppend(emitted, group, g);
  }

  /** The top `w` of the pending bits are the bits of `value >> (|pending| - w)`. */
  lemma SplitPending(value: nat, pending: seq<bool>, w: nat)
    requires w <= |pending| && ToBits(value, |pending|) == pending
    ensures pending[..w] == ToBits(Shr(value, |pending| - w), w)
    ensures pending[w..] == ToBits(value, |pending| - w)
  {
    ShrBits(value, |pending|, |pending| - w);
  }

  /** One pass of the inner encoding loop: the five bits of `top` become a symbol. */
  lemma EncodeStep(emitted: seq<bool>, group: seq<bool>, g: nat, top: nat)
    requires group == ToBits(top, 5) && |emitted| == 5 * g
    ensures SymbolsOf(emitted + group) == SymbolsOf(emitted) + [Alphabet[top % 32]]
  {
    QuintetOf(top);
    EncodeEmit(emitted, group, g);
  }

  /** `(value << 8) | x` appends the eight bits of the byte `x`. */
  lemma ShiftInByte(value: nat, k: nat, x: byte)
    ensures ToBits(value * 256 + x, k + 8) == ToBits(value, k) + ToBits(x, 8)
  {
    Pow2Constants();
    ShlBits(value, k, x, 8);
    ShlByte(value);
  }

  /** The final partial group of the encoder, filled up with zero bits to the five bits of `n`. */
  lemma EncodeTail(emitted: seq<bool>, pending: seq<bool>, g: nat, n: nat)
    requires 0 < |pending| < 5 && pending + Zeros(5 - |pending|) == ToBits(n, 5) && |emitted| == 5 * g
    ensures SymbolsOf(emitted + pending) == SymbolsOf(emitted) + [Alphabet[n % 32]]
  {
    QuintetOf(n);
    EncodeFlush(emitted, pending, g);
  }

  /** `Base32.encode`. */
  method Encode(data: seq<byte>) returns (s: string)
    ensures s == Encoding(data)
  {
    if |data| == 0 {
      return "";
    }
    var result := EncodeSymbols(data);
    ghost var symbols := result;
    while |result| % 8 != 0
      invariant |symbols| <= |result| <= |symbols| + PadLength(|symbols|)
      invariant result == symbols + Repeat('=', |result| - |symbols|)
      decreases |symbols| + PadLength(|symbols|) - |result|
    {
      result := result + ['='];
    }
    PadLengthUnique(|symbols|, |result| - |symbols|);
    return result;
  }

  /** The symbol loop of `Base32.encode`, before the padding. */
  method EncodeSymbols(data: seq<byte>) returns (result: string)
    ensures result == DataSymbols(data)
  {
    result := [];
    var bits: nat := 0;
    var value: nat := 0;
    ghost var emitted: seq<bool> := [];
    ghost var groups: nat := 0;
    for i := 0 to |data|
      invariant bits < 5 && |emitted| == 5 * groups
      invariant DataBits(data[..i]) == emitted + ToBits(value, bits)
      invariant result == SymbolsOf(emitted)
    {
      // value = (value << 8) | byte
      EncodeAbsorb(data, i, emitted, ToBits(value, bits));
      ShiftInByte(value, bits, data[i]);
      value := value * 256 + data[i];
      bits := bits + 8;
      assert DataBits(data[..i + 1]) == emitted + ToBits(value, bits);
      bits, result, emitted, groups := EmitSymbols(value, bits, result, emitted, groups);
    }
    assert data[..|data|] == data;
    if bits > 0 {
      ShlZeros(value, bits, 5 - bits);
      EncodeTail(emitted, ToBits(value, bits), groups, Shl(value, 5 - bits));
      // index = (value << (5 - bits)) & 0x1F
      var index := Shl(value, 5 - bits) % 32;
      result := result + [Alphabet[index]];
    } else {
      assert emitted + ToBits(value, 0) == emitted;
    }
  }

  /** The inner loop of `Base32.encode`: every complete group of five buffered bits becomes a symbol. */
  method EmitSymbols(value: nat, bits: nat, result: string, ghost emitted: seq<bool>, ghost groups: nat)
    returns (bits': nat, result': string, ghost emitted': seq<bool>, ghost groups': nat)
    requires |emitted| == 5 * groups && result == SymbolsOf(emitted)
    ensures bits' < 5 && |emitted'| == 5 * groups' && result' == SymbolsOf(emitted')
    ensures emitted' + ToBits(value, bits') == emitted + ToBits(value, bits)
  {
    bits', result', emitted', groups' := bits, result, emitted, groups;
    while bits' >= 5
      invariant |emitted'| == 5 * groups' && result' == SymbolsOf(emitted')
      invariant emitted' + ToBits(value, bits') == emitted + ToBits(value, bits)
    {
      ghost var pending := ToBits(value, bits');
      SplitPending(value, pending, 5);
      EncodeStep(emitted', pending[..5], groups', Shr(value, bits' - 5));
      ShiftBits(emitted', pending, 5);
      bits' := bits' - 5;
      // index = (value >> bits) & 0x1F
      var index := Shr(value, bits') % 32;
      result' := result' + [Alphabet[index]];
      emitted', groups' := emitted' + pending[..5], groups' + 1;
    }
  }



  /** The top eight bits of `top` become one byte. */
  lemma DecodeOctet(emitted: seq<bool>, group: seq<bool>, g: nat, top: nat)
    requires group == ToBits(top, 8) && |emitted| == 8 * g
    ensures Octets(emitted + group) == Octets(emitted) + [top % 256]
  {
    ByteBitsMod(top);
    DecodeEmit(emitted, group, g);
  }

  /** One pass of the decoder that emits a byte: the top eight of the `bits` buffered bits move to `emitted`. */
  lemma DecodeStep(value: nat, bits: nat, emitted: seq<bool>, g: nat)
    requires bits >= 8 && |emitted| == 8 * g
    ensures var e := emitted + ToBits(value, bits)[..8];
      && |e| == 8 * (g + 1)
      && Octets(e) == Octets(emitted) + [Shr(value, bits - 8) % 256]
      && e + ToBits(value, bits - 8) == emitted + ToBits(value, bits)
  {
    var pending := ToBits(value, bits);
    SplitPending(value, pending, 8);
    DecodeOctet(emitted, pending[..8], g, Shr(value, bits - 8));
    ShiftBits(emitted, pending, 8);
  }

  /** `(value << 5) | x` appends the five bits of the symbol index `x`. */
  lemma ShiftInSymbol(value: nat, k: nat, x: nat)
    requires x < 32
    ensures ToBits(value * 32 + x, k + 5) == ToBits(value, k) + ToBits(x, 5)
  {
    Pow2Constants();
    ShlBits(value, k, x, 5);
    ShlSymbol(value);
  }

  /** `Base32.decode`. */
  method Decode(encoded: string) returns (r: Result<seq<byte>, char>)
    ensures r == Decoding(encoded)
  {
    if |encoded| == 0 {
      return Success([]);
    }
    r := DecodeSymbols(Normalize(encoded));
  }

  /** The symbol loop of `Base32.decode`, on the stripped and upper-cased text. */
  method DecodeSymbols(text: string) returns (r: Result<seq<byte>, char>)
    ensures r == SymbolDecoding(text)
  {
    var result: seq<byte> := [];
    var bits: nat := 0;
    var value: nat := 0;
    ghost var emitted: seq<bool> := [];
    ghost var groups: nat := 0;
    for i := 0 to |text|
      invariant bits < 8 && |emitted| == 8 * groups
      invariant AllSymbols(text[..i])
      invariant SymbolBits(text[..i]) == emitted + ToBits(value, bits)
      invariant Octets(emitted) == result
    {
      var c := text[i];
      var index := SymbolIndex(c);
      if index.None? {
        FirstInvalidAfterValid(text, i);
        return Failure(c);
      }
      // value = (value << 5) | decode_map[char]
      DecodeAbsorb(text, i, emitted, ToBits(value, bits));
      ShiftInSymbol(value, bits, index.value);
      value := value * 32 + index.value;
      bits := bits + 5;
      assert SymbolBits(text[..i + 1]) == emitted + ToBits(value, bits);
      if bits >= 8 {
        DecodeStep(value, bits, emitted, groups);
        emitted, groups := emitted + ToBits(value, bits)[..8], groups + 1;
        bits := bits - 8;
        // (value >> bits) & 0xFF
        var octet := Shr(value, bits) % 256;
        result := result + [octet];
      }
    }
    assert text[..|text|] == text;
    ghost var pending := ToBits(value, bits);
    OctetsAppend(emitted, pending, groups);
    assert Octets(pending) == [];
    FirstInvalidNoneWhenValid(text);
    assert Octets(SymbolBits(text)) == result;
    return Success(result);
  }

  lemma FirstInvalidNoneWhenValid(text: string)
    requires AllSymbols(text)
    ensures FirstInvalid(text) == None
  {
  }

  /** The first invalid character after a valid prefix is the one reported. */
  lemma {:induction false} FirstInvalidAfterValid(text: string, i: nat)
    requires i < |text| && AllSymbols(text[..i]) && SymbolIndex(text[i]).None?
    ensures FirstInvalid(text) == Some(text[i])
  {
    if i > 0 {
      assert SymbolIndex(text[..i][0]).Some?;
      assert text[1..][..i - 1] == text[..i][1..];
      FirstInvalidAfterValid(text[1..], i - 1);
    }
  }

  // ---------------------------------------------------------------------------
  // Lengths
  // ---------------------------------------------------------------------------

  lemma {:induction false} DataBitsLength(data: seq<byte>)
    ensures |DataBits(data)| == 8 * |data|
  {
    if |data| > 0 {
      DataBitsLength(data[1..]);
    }
  }

  lemma {:induction false} SymbolsOfLength(bits: seq<bool>)
    ensures |SymbolsOf(bits)| == (|bits| + 4) / 5
    decreases |bits|
  {
    if |bits| >= 5 {
      SymbolsOfLength(bits[5..]);
    }
  }

  lemma {:induction false} SymbolBitsLength(text: string)
    requires AllSymbols(text)
    ensures |SymbolBits(text)| == 5 * |text|
  {
    if |text| > 0 {
      assert AllSymbols(text[1..]) by {
        forall k | 0 <= k < |text| - 1 ensures SymbolIndex(text[1..][k]).Some? {
          assert text[1..][k] == text[k + 1];
        }
      }
      SymbolBitsLength(text[1..]);
    }
  }

  lemma {:induction false} OctetsLength(bits: seq<bool>)
    ensures |Octets(bits)| == |bits| / 8
    decreases |bits|
  {
    if |bits| >= 8 {
      OctetsLength(bits[8..]);
    }
  }

  // ---------------------------------------------------------------------------
  // Properties of the codec
  // ---------------------------------------------------------------------------

  /** Every data symbol is a symbol of the alphabet. */
  lemma {:induction false} SymbolsOfValid(bits: seq<bool>)
    ensures AllSymbols(SymbolsOf(bits))
    decreases |bits|
  {
    var s := SymbolsOf(bits);
    if |bits| >= 5 {
      SymbolsOfValid(bits[5..]);
      var q := Quintet(bits[..5]);
      SymbolIndexOfAlphabet(q);
      forall k | 0 <= k < |s| ensures SymbolIndex(s[k]).Some? {
        if k > 0 { assert s[k] == SymbolsOf(bits[5..])[k - 1]; }
      }
    } else if |bits| > 0 {
      SymbolIndexOfAlphabet(Quintet(bits + Zeros(5 - |bits|)));
    }
  }

  /** The encoder's output: `8 * ceil(n / 5)` symbols, then `=` up to a multiple of eight. */
  lemma EncodingShape(data: seq<byte>)
    ensures var e, s := Encoding(data), DataSymbols(data);
      && |e| % 8 == 0
      && |s| == (8 * |data| + 4) / 5
      && e == s + Repeat('=', |e| - |s|) && |e| - |s| < 8
      && AllSymbols(s)
      && (|data| == 0 <==> e == [])
  {
    DataBitsLength(data);
    SymbolsOfLength(DataBits(data));
    SymbolsOfValid(DataBits(data));
  }

  /** The alphabet has neither lower-case letters nor `=`. */
  lemma SymbolFixed(c: char)
    requires SymbolIndex(c).Some?
    ensures UpperChar(c) == c && c != '='
  {
  }

  /** Stripping the padding and upper-casing give the data symbols back. */
  lemma NormalizeEncoding(data: seq<byte>)
    ensures RStripChar(Encoding(data), '=') == DataSymbols(data)
    ensures Normalize(Encoding(data)) == DataSymbols(data)
    ensures Normalize(DataSymbols(data)) == DataSymbols(data)
  {
    var s := DataSymbols(data);
    SymbolsOfValid(DataBits(data));
    if s != [] {
      SymbolFixed(s[|s| - 1]);
    }
    RStripRepeat(s, '=', PadLength(|s|));
    RStripRepeat(s, '=', 0);
    assert s + Repeat('=', 0) == s;
    forall k | 0 <= k < |s| ensures UpperChar(s[k]) == s[k] {
      SymbolFixed(s[k]);
    }
  }

  lemma ConcatAssoc(a: seq<bool>, b: seq<bool>, c: seq<bool>)
    ensures a + (b + c) == (a + b) + c
  {
  }

  /** The symbol for index `q` reads back as the five bits of `q`. */
  lemma SymbolBitsOne(q: nat)
    requires q < 32
    ensures AllSymbols([Alphabet[q]]) && SymbolBits([Alphabet[q]]) == ToBits(q, 5)
  {
    SymbolIndexOfAlphabet(q);
    assert SymbolBits([Alphabet[q]]) == ToBits(q, 5) + SymbolBits([]);
  }

  /** A five-bit group is the five bits of its value. */
  lemma QuintetBits(group: seq<bool>)
    requires |group| == 5
    ensures ToBits(Quintet(group), 5) == group
  {
    ValueToBits(group);
  }

  /** Reading back the first symbol gives the first five bits. */
  lemma SymbolBitsCons(bits: seq<bool>)
    requires |bits| >= 5 && AllSymbols(SymbolsOf(bits[5..]))
    ensures AllSymbols(SymbolsOf(bits))
    ensures SymbolBits(SymbolsOf(bits)) == bits[..5] + SymbolBits(SymbolsOf(bits[5..]))
  {
    var q := Quintet(bits[..5]);
    SymbolBitsOne(q);
    QuintetBits(bits[..5]);
    assert SymbolsOf(bits) == [Alphabet[q]] + SymbolsOf(bits[5..]);
    SymbolBitsAppend([Alphabet[q]], SymbolsOf(bits[5..]));
  }

  /** Reading back the symbol of a final partial group gives its bits and the zero bits that filled it. */
  lemma SymbolBitsLast(bits: seq<bool>)
    requires 0 < |bits| < 5
    ensures AllSymbols(SymbolsOf(bits))
    ensures SymbolBits(SymbolsOf(bits)) == bits + Zeros(5 - |bits|)
  {
    var full := bits + Zeros(5 - |bits|);
    SymbolBitsOne(Quintet(full));
    QuintetBits(full);
  }

  /** The number of zero bits that fill `n` bits up to whole five-bit groups. */
  function FillLength(n: nat): (r: nat)
    ensures r < 5
  {
    if n == 0 then 0 else if n < 5 then 5 - n else FillLength(n - 5)
  }

  lemma {:induction false} FillLengthAligns(n: nat)
    ensures (n + FillLength(n)) % 5 == 0
  {
    if n >= 5 {
      FillLengthAligns(n - 5);
    }
  }

  /** Reading the symbols back gives the bit string, filled up with zero bits to whole groups. */
  lemma {:induction false} SymbolBitsOfSymbols(bits: seq<bool>)
    ensures AllSymbols(SymbolsOf(bits))
    ensures SymbolBits(SymbolsOf(bits)) == bits + Zeros(FillLength(|bits|))
    decreases |bits|
  {
    if |bits| >= 5 {
      var head, tail := bits[..5], bits[5..];
      SymbolBitsOfSymbols(tail);
      SymbolBitsCons(bits);
      assert bits == head + tail;
      ConcatAssoc(head, tail, Zeros(FillLength(|tail|)));
    } else if |bits| > 0 {
      SymbolBitsLast(bits);
    } else {
      assert bits + Zeros(0) == [];
    }
  }

  /** Cutting the bits of `data`, followed by fewer than eight more, into bytes gives `data`. */
  lemma {:induction false} OctetsOfDataBits(data: seq<byte>, fill: seq<bool>)
    requires |fill| < 8
    ensures Octets(DataBits(data) + fill) == data
  {
    if |data| == 0 {
      assert DataBits(data) + fill == fill;
    } else {
      var head := ToBits(data[0], 8);
      var rest := DataBits(data[1..]) + fill;
      assert DataBits(data) + fill == head + rest;
      assert (head + rest)[..8] == head && (head + rest)[8..] == rest;
      ToBitsValue(data[0], 8);
      Pow2Constants();
      OctetsOfDataBits(data[1..], fill);
    }
  }

  /** Decoding undoes encoding. */
  lemma RoundTrip(data: seq<byte>)
    ensures Decoding(Encoding(data)) == Success(data)
  {
    var bits := DataBits(data);
    NormalizeEncoding(data);
    SymbolBitsOfSymbols(bits);
    FirstInvalidNoneWhenValid(SymbolsOf(bits));
    OctetsOfDataBits(data, Zeros(FillLength(|bits|)));
  }

  /** Decoding fails exactly when the stripped, upper-cased text has a character outside the alphabet, and reports one of them. */
  lemma DecodingFails(encoded: string)
    ensures Decoding(encoded).Failure? <==> exists k :: 0 <= k < |Normalize(encoded)| && Normalize(encoded)[k] !in Alphabet
    ensures Decoding(encoded).Failure? ==> Decoding(encoded).error in Normalize(encoded) && Decoding(encoded).error !in Alphabet
  {
    var text := Normalize(encoded);
    forall k | 0 <= k < |text| ensures SymbolIndex(text[k]).Some? <==> text[k] in Alphabet {
      SymbolIndexInverse(text[k]);
    }
    var r := FirstInvalid(text);
    if r.Some? {
      SymbolIndexInverse(r.value);
    }
  }

  /** A successful decoding has one byte for each complete group of eight bits. */
  lemma DecodingLength(encoded: string)
    requires Decoding(encoded).Success?
    ensures |Decoding(encoded).value| == 5 * |Normalize(encoded)| / 8
  {
    var text := Normalize(encoded);
    SymbolBitsLength(text);
    OctetsLength(SymbolBits(text));
  }

  // ---------------------------------------------------------------------------
  // The documented example
  // ---------------------------------------------------------------------------

  /** The big-endian value of `acc` followed by the bytes of `data`. */
  function BytesValue(acc: nat, data: seq<byte>): nat
    decreases |data|
  {
    if data == [] then acc else BytesValue(acc * 256 + data[0], data[1..])
  }

  /** The bits of the bytes are the low bits of their big-endian value. */
  lemma {:induction false} DataBitsValue(acc: nat, k: nat, data: seq<byte>)
    ensures ToBits(acc, k) + DataBits(data) == ToBits(BytesValue(acc, data), k + 8 * |data|)
    decreases |data|
  {
    if data != [] {
      Pow2Constants();
      ShlByte(acc);
      ShlBits(acc, k, data[0], 8);
      DataBitsValue(acc * 256 + data[0], k + 8, data[1..]);
    } else {
      assert DataBits(data) == [];
    }
  }

  /** A right shift is a division by a power of two. */
  lemma {:induction false} ShrIsDiv(v: nat, n: nat)
    ensures Shr(v, n) == v / Pow2(n)
  {
    if n > 0 {
      ShrIsDiv(v / 2, n - 1);
      ModDouble(v, Pow2(n - 1));
    }
  }

  /** The symbols of `g` five-bit groups of `v`, most significant first. */
  function GroupSymbols(v: nat, g: nat): string
    decreases g
  {
    if g == 0 then [] else GroupSymbols(v / 32, g - 1) + [Alphabet[v % 32]]
  }

  /** Cutting the low `5g` bits of `v` into groups gives the symbols of its base-32 digits. */
  lemma {:induction false} SymbolsOfValue(v: nat, g: nat)
    ensures SymbolsOf(ToBits(v, 5 * g)) == GroupSymbols(v, g)
    decreases g
  {
    if g > 0 {
      var high, last := ToBits(v / 32, 5 * (g - 1)), ToBits(v, 5);
      LowGroup(v, g);
      SymbolsOfAppend(high, last, g - 1);
      SymbolsOfValue(v / 32, g - 1);
      SingleSymbol(v);
    }
  }

  /** The low five bits of `v` come after the bits of `v / 32`. */
  lemma LowGroup(v: nat, g: nat)
    requires g > 0
    ensures ToBits(v, 5 * g) == ToBits(v / 32, 5 * (g - 1)) + ToBits(v, 5)
  {
    Pow2Constants();
    ShrIsDiv(v, 5);
    ShrBits(v, 5 * g, 5);
  }

  /** Five bits on their own make one symbol. */
  lemma SingleSymbol(v: nat)
    ensures SymbolsOf(ToBits(v, 5)) == [Alphabet[v % 32]]
  {
    var last := ToBits(v, 5);
    assert last[..5] == last && last[5..] == [];
    QuintetOf(v);
  }

  /** For whole groups, the data symbols are the base-32 digits of the bytes' big-endian value. */
  lemma DataSymbolsValue(data: seq<byte>, g: nat)
    requires 8 * |data| == 5 * g
    ensures DataSymbols(data) == GroupSymbols(BytesValue(0, data), g)
  {
    DataBitsValue(0, 0, data);
    assert ToBits(0, 0) + DataBits(data) == DataBits(data);
    SymbolsOfValue(BytesValue(0, data), g);
  }

  /** The five bytes of `Hello`, read big-endian. */
  lemma HelloValue(data: seq<byte>)
    requires data == [72, 101, 108, 108, 111]
    ensures BytesValue(0, data) == 310939249775
  {
    var d1, d2, d3, d4 := data[1..], data[2..], data[3..], data[4..];
    assert d1[1..] == d2 && d2[1..] == d3 && d3[1..] == d4 && d4[1..] == [];
    assert BytesValue(0, data) == BytesValue(72, d1);
    assert BytesValue(72, d1) == BytesValue(18533, d2);
    assert BytesValue(18533, d2) == BytesValue(4744556, d3);
    assert BytesValue(4744556, d3) == BytesValue(1214606444, d4);
    assert BytesValue(1214606444, d4) == BytesValue(310939249775, []);
  }

  /** The first four base-32 digits of that value. */
  /** One more base-32 digit below those of `q`. */
  lemma GroupStep(v: nat, q: nat, d: nat, g: nat, s: string)
    requires d < 32 && v == 32 * q + d && GroupSymbols(q, g) == s
    ensures GroupSymbols(v, g + 1) == s + [Alphabet[d]]
  {
    DivModUnique(v, 32, q, d);
  }

  /** The three leading base-32 digits of the value of `Hello`. */
  lemma HelloDigitsHigh()
    ensures GroupSymbols(9266, 3) == "JBS"
  {
    assert GroupSymbols(0, 0) == "";
    GroupStep(9, 0, 9, 0, "");
    GroupStep(289, 9, 1, 1, "J");
    GroupStep(9266, 289, 18, 2, "JB");
  }

  /** Its six leading base-32 digits. */
  lemma HelloDigitsMiddle()
    ensures GroupSymbols(303651611, 6) == "JBSWY3"
  {
    HelloDigitsHigh();
    GroupStep(296534, 9266, 22, 3, "JBS");
    GroupStep(9489112, 296534, 24, 4, "JBSW");
    GroupStep(303651611, 9489112, 27, 5, "JBSWY");
  }

  /** All eight of its base-32 digits. */
  lemma HelloDigits()
    ensures GroupSymbols(310939249775, 8) == "JBSWY3DP"
  {
    HelloDigitsMiddle();
    GroupStep(9716851555, 303651611, 3, 6, "JBSWY3");
    GroupStep(310939249775, 9716851555, 15, 7, "JBSWY3D");
  }

  /** The documented example: the bytes of `Hello` encode to `JBSWY3DP` and decode back. */
  lemma HelloExample(data: seq<byte>, text: string)
    requires data == [72, 101, 108, 108, 111] && text == "JBSWY3DP"
    ensures Encoding(data) == text && Decoding(text) == Success(data)
  {
    DataSymbolsValue(data, 8);
    HelloValue(data);
    HelloDigits();
    assert PadLength(|DataSymbols(data)|) == 0;
    assert Repeat('=', 0) == [];
    RoundTrip(data);
  }
}
