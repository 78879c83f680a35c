/**
 `base32_decode_impl`: a 32-bit signed accumulator that is shifted left five bits per symbol and never masked. The
 reference is an unbounded string of bits; the encoder is that of section 6 of RFC 4648.
 */
module Base32 {
  import opened Bits
  import opened Wrappers

  type Symbol = x: int | 0 <= x < 32

  // ----- bit strings, most significant bit first -----

  function ToBits(v: nat, width: nat): (r: seq<bool>)
    ensures |r| == width
  {
    if width == 0 then [] else ToBits(v / 2, width - 1) + [v % 2 == 1]
  }

  function FromBits(bits: seq<bool>): (v: nat)
    ensures v < Pow2(|bits|)
  {
    if bits == [] then 0
    else 2 * FromBits(bits[..|bits| - 1]) + if bits[|bits| - 1] then 1 else 0
  }

  lemma {:induction false} FromToBits(v: nat, width: nat)
    requires v < Pow2(width)
    ensures FromBits(ToBits(v, width)) == v
  {
    if width > 0 {
      FromToBits(v / 2, width - 1);
      assert ToBits(v, width)[..width - 1] == ToBits(v / 2, width - 1);
    }
  }

  lemma {:induction false} ToFromBits(bits: seq<bool>)
    ensures ToBits(FromBits(bits), |bits|) == bits
  {
    if bits != [] {
      var n := |bits| - 1;
      ToFromBits(bits[..n]);
      assert FromBits(bits) / 2 == FromBits(bits[..n]);
      assert bits == bits[..n] + [bits[n]];
    }
  }

  lemma FromBitsAppend(bits: seq<bool>, bit: bool)
    ensures FromBits(bits + [bit]) == 2 * FromBits(bits) + if bit then 1 else 0
  {
    assert (bits + [bit])[..|bits|] == bits;
  }

  lemma DoubledProduct(x: nat, n: nat)
    ensures x * Pow2(n + 1) == 2 * (x * Pow2(n))
  {
    var p := Pow2(n);
    assert Pow2(n + 1) == 2 * p;
  }

  lemma AppendedBit(x: nat, n: nat, low: nat, whole: nat, bit: nat)
    requires whole == x * Pow2(n) + low
    ensures 2 * whole + bit == x * Pow2(n + 1) + (2 * low + bit)
  {
    DoubledProduct(x, n);
  }

  lemma {:induction false} FromBitsConcat(a: seq<bool>, b: seq<bool>)
    ensures FromBits(a + b) == FromBits(a) * Pow2(|b|) + FromBits(b)
  {
    if b == [] {
      assert a + b == a;
    } else {
      var front, last := b[..|b| - 1], b[|b| - 1];
      FromBitsConcat(a, front);
      FromBitsAppend(a + front, last);
      FromBitsAppend(front, last);
      assert front + [last] == b;
      Associative(a, front, [last]);
      AppendedBit(FromBits(a), |front|, FromBits(front), FromBits(a + front), if last then 1 else 0);
    }
  }

  /** Each value as `width` bits, one after the other. */
  function Spread(values: seq<nat>, width: nat): (r: seq<bool>) {
    if values == [] then [] else ToBits(values[0], width) + Spread(values[1..], width)
  }

  lemma {:induction false} SpreadAppend(values: seq<nat>, v: nat, width: nat)
    ensures Spread(values + [v], width) == Spread(values, width) + ToBits(v, width)
  {
    if values == [] {
      assert values + [v] == [v];
      assert Spread([v], width) == ToBits(v, width) + Spread([], width);
    } else {
      SpreadAppend(values[1..], v, width);
      assert (values + [v])[1..] == values[1..] + [v];
    }
  }

  lemma {:induction false} SpreadLength(values: seq<nat>, width: nat)
    ensures |Spread(values, width)| == |values| * width
  {
    if values != [] {
      SpreadLength(values[1..], width);
    }
  }

  /** The whole bytes of a bit string, from the left; fewer than eight bits left over are dropped. */
  function WholeBytes(bits: seq<bool>): seq<byte> {
    if |bits| < 8 then []
    else
      Pow2Values();
      [FromBits(bits[..8])] + WholeBytes(bits[8..])
  }

  lemma {:induction false} WholeBytesUnique(bytes: seq<byte>, rest: seq<bool>)
    requires |rest| < 8
    ensures WholeBytes(Spread(bytes, 8) + rest) == bytes
  {
    if bytes == [] {
      assert Spread(bytes, 8) + rest == rest;
    } else {
      Pow2Values();
      var head := ToBits(bytes[0], 8);
      var tail := Spread(bytes[1..], 8) + rest;
      WholeBytesUnique(bytes[1..], rest);
      FromToBits(bytes[0], 8);
      assert Spread(bytes, 8) + rest == head + tail;
      assert (head + tail)[..8] == head && (head + tail)[8..] == tail;
    }
  }

  // ----- text -----

  function Value(c: char): int {
    if 'A' <= c <= 'Z' then c as int - 'A' as int
    else if '2' <= c <= '7' then 26 + (c as int - '2' as int)
    else -1
  }

  function Letter(v: Symbol): char {
    if v < 26 then ('A' as int + v) as char else ('2' as int + (v - 26)) as char
  }

  predicate IsSpace(c: char) {
    c == ' ' || 9 <= c as int <= 13
  }

  function ToUpper(c: char): char {
    if 'a' <= c <= 'z' then (c as int - 'a' as int + 'A' as int) as char else c
  }

  /** Upper-cased, with whitespace and '=' removed wherever they occur. */
  function Normalize(text: string): string {
    if text == [] then []
    else
      var n := |text| - 1;
      Normalize(text[..n]) + if text[n] == '=' || IsSpace(text[n]) then [] else [ToUpper(text[n])]
  }

  predicate IsCode(letters: string) {
    forall c :: c in letters ==> Value(c) >= 0
  }

  function Symbols(letters: string): (r: seq<Symbol>)
    requires IsCode(letters)
    ensures |r| == |letters|
  {
    seq(|letters|, i requires 0 <= i < |letters| => Value(letters[i]))
  }

  /** What the decoder should return: the whole bytes of the symbols' bits, or an error for a foreign character. */
  function DecodeText(text: string): Result<seq<byte>> {
    var letters := Normalize(text);
    if IsCode(letters) then Ok(WholeBytes(Spread(Symbols(letters), 5)))
    else Err("TOTP: invalid Base32 character")
  }

  // ----- 32-bit signed arithmetic -----

  const TWO31: int := 0x8000_0000

  /** Two's complement reduction to 32 bits. */
  function Wrap32(x: int): (r: int)
    ensures -TWO31 <= r < TWO31
  {
    (x + TWO31) % TWO32 - TWO31
  }

  /** The accumulator shifted left by five in 32 bits, with the symbol in the bits this frees. */
  function PushSymbol(buffer: int, v: Symbol): int {
    Wrap32(Or(Wrap32(buffer * 32) % TWO32, v))
  }

  /** The low byte of the accumulator shifted right by k, the sign bit being copied in. */
  function TakeByte(buffer: int, k: nat): byte {
    AndMask((buffer / Pow2(k)) % TWO32, 8);
    Pow2Values();
    And((buffer / Pow2(k)) % TWO32, 0xFF)
  }

  lemma Wrap32Residue(x: int)
    ensures Wrap32(x) % TWO32 == x % TWO32
  {
    assert Wrap32(x) == x + TWO32 * (-((x + TWO31) / TWO32));
    AddMultiple(x, TWO32, -((x + TWO31) / TWO32));
  }

  lemma ResidueBelow(x: int, y: int, k: nat)
    requires k <= 32 && x % TWO32 == y % TWO32
    ensures x % Pow2(k) == y % Pow2(k)
  {
    Pow2Values();
    Pow2Add(32 - k, k);
    ModOfMod(x, Pow2(k), Pow2(32 - k));
    ModOfMod(y, Pow2(k), Pow2(32 - k));
  }

  lemma ShiftedIsMultiple(buffer: int)
    ensures Wrap32(buffer * 32) % TWO32 == (buffer * 32) % TWO32
    ensures (Wrap32(buffer * 32) % TWO32) % 32 == 0
  {
    Wrap32Residue(buffer * 32);
    ModOfMod(buffer * 32, 32, 0x800_0000);
    DivModUnique(buffer * 32, 32, buffer, 0);
  }

  lemma OrLowBits(x: nat, v: Symbol)
    requires x % 32 == 0
    ensures Or(x, v) == x + v
  {
    SmallPowers();
    OrDisjoint(x / 32, v, 5);
  }

  /** In its low 32 bits the accumulator gains the symbol, whatever the shift pushed out at the top. */
  lemma PushSymbolResidue(buffer: int, v: Symbol)
    ensures PushSymbol(buffer, v) % TWO32 == (buffer * 32 + v) % TWO32
  {
    var shifted := Wrap32(buffer * 32) % TWO32;
    ShiftedIsMultiple(buffer);
    OrLowBits(shifted, v);
    Wrap32Residue(shifted + v);
    AddMultiple(shifted + v, TWO32, buffer * 32 / TWO32);
  }

  // ----- the decoding loop -----

  /** The low bits of the accumulator are the pending bits. */
  ghost predicate Holds(buffer: int, pending: seq<bool>) {
    buffer % Pow2(|pending|) == FromBits(pending)
  }

  lemma PushKeepsPending(buffer: int, pending: seq<bool>, v: Symbol)
    requires Holds(buffer, pending) && |pending| < 8
    ensures Holds(PushSymbol(buffer, v), pending + ToBits(v, 5))
  {
    var k := |pending|;
    SmallPowers();
    PushSymbolResidue(buffer, v);
    ResidueBelow(PushSymbol(buffer, v), buffer * 32 + v, k + 5);
    Pow2Add(k, 5);
    ShiftResidue(buffer, v, Pow2(k));
    FromBitsConcat(pending, ToBits(v, 5));
    FromToBits(v, 5);
  }

  lemma ShiftResidue(x: int, v: Symbol, p: nat)
    requires p > 0
    ensures (x * 32 + v) % (p * 32) == (x % p) * 32 + v
  {
    var q, r := x / p, x % p;
    assert x == q * p + r;
    assert x * 32 + v == q * (p * 32) + (r * 32 + v);
    DivModUnique(x * 32 + v, p * 32, q, r * 32 + v);
  }

  /** With eight to twelve bits pending, the byte taken is the first eight of them and the rest stay pending. */
  lemma TakeByteIsFirstEight(buffer: int, pending: seq<bool>)
    requires Holds(buffer, pending) && 8 <= |pending| <= 12
    ensures TakeByte(buffer, |pending| - 8) == FromBits(pending[..8])
    ensures Holds(buffer, pending[8..])
  {
    var k := |pending| - 8;
    var p := Pow2(k);
    SmallPowers();
    AndMask((buffer / p) % TWO32, 8);
    ModOfMod(buffer / p, 256, 0x100_0000);
    FromBitsConcat(pending[..8], pending[8..]);
    assert pending == pending[..8] + pending[8..];
    Pow2Add(8, k);
    SplitResidue(buffer, p, FromBits(pending[..8]), FromBits(pending[8..]));
  }

  lemma SplitResidue(x: int, p: nat, high: nat, low: nat)
    requires p > 0 && high < 256 && low < p && x % (256 * p) == high * p + low
    ensures (x / p) % 256 == high && x % p == low
  {
    var q := x / (256 * p);
    assert x == q * (256 * p) + (high * p + low);
    assert x == (q * 256 + high) * p + low;
    DivModUnique(x, p, q * 256 + high, low);
    DivModUnique(q * 256 + high, 256, q, high);
  }

  /** The bits of the first i symbols are the bytes put out so far and then the pending bits. */
  ghost predicate Split(symbols: seq<Symbol>, out: seq<byte>, pending: seq<bool>) {
    Spread(symbols, 5) == Spread(out, 8) + pending
  }

  lemma SplitSymbol(symbols: seq<Symbol>, v: Symbol, out: seq<byte>, pending: seq<bool>)
    requires Split(symbols, out, pending)
    ensures Split(symbols + [v], out, pending + ToBits(v, 5))
  {
    SpreadAppend(symbols, v, 5);
    Associative(Spread(out, 8), pending, ToBits(v, 5));
  }

  lemma SplitByte(symbols: seq<Symbol>, out: seq<byte>, pending: seq<bool>)
    requires Split(symbols, out, pending) && |pending| >= 8
    ensures FromBits(pending[..8]) < 256
    ensures Split(symbols, out + [FromBits(pending[..8])], pending[8..])
  {
    SmallPowers();
    SpreadAppend(out, FromBits(pending[..8]), 8);
    var first, rest := pending[..8], pending[8..];
    ToFromBits(first);
    assert pending == first + rest;
    Associative(Spread(out, 8), first, rest);
  }

  method NormalizeText(text: string) returns (letters: string)
    ensures letters == Normalize(text)
  {
    letters := [];
    for i := 0 to |text|
      invariant letters == Normalize(text[..i])
    {
      assert text[..i + 1][..i] == text[..i];
      if text[i] == '=' {
        continue;
      }
      if IsSpace(text[i]) {
        continue;
      }
      letters := letters + [ToUpper(text[i])];
    }
    assert text[..|text|] == text;
  }

  /**
   Decoding with the unmasked 32-bit accumulator agrees with decoding the unbounded bit string, and m symbols give
   floor(5m / 8) bytes.
   */
  method Decode(text: string) returns (r: Result<seq<byte>>)
    ensures r == DecodeText(text)
    ensures r.Ok? ==> |r.value| == 5 * |Normalize(text)| / 8
  {
    var letters := NormalizeText(text);
    var out: seq<byte> := [];
    var buffer, bitsLeft := 0, 0;
    ghost var symbols: seq<Symbol>, pending: seq<bool> := [], [];
    for i := 0 to |letters|
      invariant IsCode(letters[..i]) && symbols == Symbols(letters[..i])
      invariant Split(symbols, out, pending) && Holds(buffer, pending)
      invariant bitsLeft == |pending| < 8 && -TWO31 <= buffer < TWO31
    {
      var v := Value(letters[i]);
      if v < 0 {
        assert letters[i] in letters;
        return Err("TOTP: invalid Base32 character");
      }
      CodeExtends(letters, i);
      PushKeepsPending(buffer, pending, v);
      SplitSymbol(symbols, v, out, pending);
      buffer := PushSymbol(buffer, v);
      bitsLeft := bitsLeft + 5;
      symbols, pending := symbols + [v], pending + ToBits(v, 5);
      if bitsLeft >= 8 {
        bitsLeft := bitsLeft - 8;
        TakeByteIsFirstEight(buffer, pending);
        SplitByte(symbols, out, pending);
        out := out + [TakeByte(buffer, bitsLeft)];
        pending := pending[8..];
      }
    }
    assert letters[..|letters|] == letters;
    WholeBytesUnique(out, pending);
    ByteCount(symbols, out, pending);
    return Ok(out);
  }

  lemma CodeExtends(letters: string, i: nat)
    requires i < |letters| && IsCode(letters[..i]) && Value(letters[i]) >= 0
    ensures IsCode(letters[..i + 1]) && Symbols(letters[..i + 1]) == Symbols(letters[..i]) + [Value(letters[i])]
  {
    assert letters[..i + 1] == letters[..i] + [letters[i]];
  }

  lemma ByteCount(symbols: seq<Symbol>, out: seq<byte>, pending: seq<bool>)
    requires Split(symbols, out, pending) && |pending| < 8
    ensures |out| == 5 * |symbols| / 8
  {
    SpreadLength(symbols, 5);
    SpreadLength(out, 8);
  }

  // ----- the encoder of RFC 4648, section 6 -----

  function Zeros(n: nat): (r: seq<bool>)
    ensures |r| == n
  {
    seq(n, _ => false)
  }

  /** Groups of five bits from the left, the last completed with zero bits. */
  function Groups(bits: seq<bool>): seq<Symbol> {
    SmallPowers();
    if bits == [] then []
    else if |bits| < 5 then [FromBits(bits + Zeros(5 - |bits|))]
    else [FromBits(bits[..5])] + Groups(bits[5..])
  }

  function Letters(symbols: seq<Symbol>): (r: string)
    ensures |r| == |symbols|
  {
    seq(|symbols|, i requires 0 <= i < |symbols| => Letter(symbols[i]))
  }

  function Padding(letters: nat): (r: string)
    ensures (letters + |r|) % 8 == 0
  {
    seq((8 - letters % 8) % 8, _ => '=')
  }

  /** The letters of the bytes, completed with '=' to a whole number of eight-character quanta. */
  function Encode(bytes: seq<byte>): string {
    var letters := Letters(Groups(Spread(bytes, 8)));
    letters + Padding(|letters|)
  }

  lemma {:induction false} GroupsSpread(bits: seq<bool>) returns (zeros: nat)
    ensures zeros < 5 && Spread(Groups(bits), 5) == bits + Zeros(zeros)
  {
    SmallPowers();
    if bits == [] {
      zeros := 0;
    } else if |bits| < 5 {
      zeros := 5 - |bits|;
      ToFromBits(bits + Zeros(zeros));
      assert Groups(bits)[1..] == [];
    } else {
      zeros := GroupsSpread(bits[5..]);
      ToFromBits(bits[..5]);
      assert Groups(bits)[1..] == Groups(bits[5..]);
      assert bits[..5] + (bits[5..] + Zeros(zeros)) == bits + Zeros(zeros);
    }
  }

  lemma LettersAreCode(symbols: seq<Symbol>)
    ensures IsCode(Letters(symbols)) && Symbols(Letters(symbols)) == symbols
  {
    forall i | 0 <= i < |symbols|
      ensures Value(Letters(symbols)[i]) == symbols[i]
    {
    }
  }

  lemma {:induction false} NormalizeConcat(a: string, b: string)
    ensures Normalize(a + b) == Normalize(a) + Normalize(b)
  {
    if b == [] {
      assert a + b == a;
    } else {
      var n := |b| - 1;
      NormalizeConcat(a, b[..n]);
      assert (a + b)[..|a + b| - 1] == a + b[..n];
      Associative(Normalize(a), Normalize(b[..n]), if b[n] == '=' || IsSpace(b[n]) then [] else [ToUpper(b[n])]);
    }
  }

  lemma {:induction false} NormalizeKeepsLetters(symbols: seq<Symbol>)
    ensures Normalize(Letters(symbols)) == Letters(symbols)
  {
    if symbols != [] {
      var n := |symbols| - 1;
      NormalizeKeepsLetters(symbols[..n]);
      assert Letters(symbols)[..n] == Letters(symbols[..n]);
    }
  }

  lemma {:induction false} NormalizeDropsPadding(pad: string)
    requires forall i :: 0 <= i < |pad| ==> pad[i] == '='
    ensures Normalize(pad) == []
  {
    if pad != [] {
      NormalizeDropsPadding(pad[..|pad| - 1]);
    }
  }

  /**
   Decoding inverts the encoder for every byte string: any text that spells the encoded letters, in either case,
   with or without the padding and with whitespace anywhere, decodes to the bytes.
   */
  lemma DecodeInvertsEncode(bytes: seq<byte>, text: string)
    requires Normalize(text) == Letters(Groups(Spread(bytes, 8)))
    ensures DecodeText(text) == Ok(bytes)
  {
    var bits := Spread(bytes, 8);
    var zeros := GroupsSpread(bits);
    LettersAreCode(Groups(bits));
    WholeBytesUnique(bytes, Zeros(zeros));
  }

  /** The encoder's own output, padding included, is such a text. */
  lemma EncodedTextDecodes(bytes: seq<byte>)
    ensures DecodeText(Encode(bytes)) == Ok(bytes) && |Encode(bytes)| % 8 == 0
  {
    var symbols := Groups(Spread(bytes, 8));
    var letters := Letters(symbols);
    NormalizeConcat(letters, Padding(|letters|));
    NormalizeKeepsLetters(symbols);
    NormalizeDropsPadding(Padding(|letters|));
    DecodeInvertsEncode(bytes, Encode(bytes));
  }

  /** A text that differs from another only in case, padding and whitespace: one character at a time. */
  ghost predicate Respells(text: string, other: string)
    decreases |text| + |other|
  {
    || (text == [] && other == [])
    || (text != [] && (text[0] == '=' || IsSpace(text[0])) && Respells(text[1..], other))
    || (other != [] && (other[0] == '=' || IsSpace(other[0])) && Respells(text, other[1..]))
    || (text != [] && other != [] && ToUpper(text[0]) == ToUpper(other[0])
          && Respells(text[1..], other[1..]))
  }

  lemma NormalizeFirst(text: string)
    requires text != []
    ensures
      Normalize(text) == (if text[0] == '=' || IsSpace(text[0]) then [] else [ToUpper(text[0])]) + Normalize(text[1..])
  {
    NormalizeConcat([text[0]], text[1..]);
    assert [text[0]] + text[1..] == text;
    assert Normalize([text[0]][..0]) == [];
  }

  lemma {:induction false} RespellingsDecodeAlike(text: string, other: string)
    requires Respells(text, other)
    ensures Normalize(text) == Normalize(other) && DecodeText(text) == DecodeText(other)
    decreases |text| + |other|
  {
    if text != [] {
      NormalizeFirst(text);
    }
    if other != [] {
      NormalizeFirst(other);
    }
    if text == [] && other == [] {
    } else if text != [] && (text[0] == '=' || IsSpace(text[0])) && Respells(text[1..], other) {
      RespellingsDecodeAlike(text[1..], other);
    } else if other != [] && (other[0] == '=' || IsSpace(other[0])) && Respells(text, other[1..]) {
      RespellingsDecodeAlike(text, other[1..]);
    } else {
      RespellingsDecodeAlike(text[1..], other[1..]);
    }
  }

  // ----- the accepted texts, character by character -----

  /** Space, tab, line feed, vertical tab, form feed, carriage return, or '='. */
  predicate Ignored(c: char) {
    c as int == 32 || c as int == 9 || c as int == 10 || c as int == 11 || c as int == 12 || c as int == 13 || c == '='
  }

  /** c is the letter, or the lower case of it. */
  predicate WritesLetter(c: char, letter: char) {
    c == letter || ('A' <= letter <= 'Z' && c as int == letter as int + 32)
  }

  /** The text is the letters in order, each in either case, with ignored characters anywhere. */
  predicate Spells(text: string, letters: string) {
    if text == [] then letters == []
    else
      || (Ignored(text[0]) && Spells(text[1..], letters))
      || (letters != [] && WritesLetter(text[0], letters[0]) && Spells(text[1..], letters[1..]))
  }

  const ALPHABET := "ABCDEFGHIJKLMNOPQRSTUVWXYZ234567"

  lemma LettersAreTheAlphabet(symbols: seq<Symbol>)
    ensures forall i :: 0 <= i < |symbols| ==> Letters(symbols)[i] == ALPHABET[symbols[i]]
  {
    assert forall v: Symbol :: Letter(v) == ALPHABET[v];
  }

  lemma {:induction false} SpellsNormalizes(text: string, letters: string)
    requires Spells(text, letters) && IsCode(letters)
    ensures Normalize(text) == letters
  {
    if text != [] {
      NormalizeFirst(text);
      if Ignored(text[0]) && Spells(text[1..], letters) {
        SpellsNormalizes(text[1..], letters);
      } else {
        assert letters[0] in letters;
        SpellsNormalizes(text[1..], letters[1..]);
        assert [letters[0]] + letters[1..] == letters;
      }
    }
  }

  /** Every way of writing the letters of a byte string decodes to the bytes. */
  lemma SpelledTextDecodes(bytes: seq<byte>, text: string)
    requires Spells(text, Letters(Groups(Spread(bytes, 8))))
    ensures DecodeText(text) == Ok(bytes)
  {
    LettersAreCode(Groups(Spread(bytes, 8)));
    SpellsNormalizes(text, Letters(Groups(Spread(bytes, 8))));
    DecodeInvertsEncode(bytes, text);
  }

  /** The characters a secret may contain. */
  predicate Accepted(c: char) {
    Ignored(c) || 'A' <= c <= 'Z' || 'a' <= c <= 'z' || '2' <= c <= '7'
  }

  /** A text is refused exactly when some character of it is foreign. */
  lemma AcceptedTexts(text: string)
    ensures DecodeText(text).Ok? <==> forall i :: 0 <= i < |text| ==> Accepted(text[i])
  {
    CodeFrom(text);
  }

  lemma {:induction false} CodeFrom(text: string)
    ensures IsCode(Normalize(text)) <==> forall i :: 0 <= i < |text| ==> Accepted(text[i])
  {
    if text != [] {
      var n := |text| - 1;
      CodeFrom(text[..n]);
      var c := text[n];
      var last := if c == '=' || IsSpace(c) then [] else [ToUpper(c)];
      assert Normalize(text) == Normalize(text[..n]) + last;
      assert IsCode(Normalize(text)) <==> IsCode(Normalize(text[..n])) && IsCode(last) by {
        CodeOfBoth(Normalize(text[..n]), last);
      }
      assert IsCode(last) <==> Accepted(c) by {
        if last != [] {
          assert last[0] in last;
        }
      }
    }
  }

  lemma CodeOfBoth(a: string, b: string)
    ensures IsCode(a + b) <==> IsCode(a) && IsCode(b)
  {
    assert forall c :: c in a ==> c in a + b;
    assert forall c :: c in b ==> c in a + b;
  }
}
