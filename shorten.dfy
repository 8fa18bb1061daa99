/**
  The quote-token shortener (src/quotes/shorten.rs). A token is a UUID; only
  its top 88 bits are kept, written either as 16 base-62 characters
  (digits, then lower-case, then upper-case letters) or as the first 11 bytes
  in 22 lower-case hex characters.
 */
module Shorten {
  import opened Wrappers
  import opened Numeric

  /** Low bits of the UUID that the short forms drop. */
  const IGNORE_BITS: nat := 40

  const TWO_40: nat := 0x100_0000_0000
  const TWO_88: nat := 0x100_0000_0000_0000_0000_0000
  const TWO_128: nat := 0x1_0000_0000_0000_0000_0000_0000_0000_0000

  const ALPHANUMERIC_STR_LENGTH: nat := 16

  /** Bytes of the UUID that the hex form writes: 16 - 40 / 8. */
  const BYTES_CUT: nat := 11

  /** Rust's `u128`. */
  type u128 = x: nat | x < TWO_128

  /** A UUID, as the number `Uuid::as_u128` reads from its 16 bytes. */
  datatype Token = Token(id: u128)

  datatype Error = UnexpectedLength | NonAlphanumeric | NonAscii

  /** 16 base-62 digits hold every 88-bit number: 2^88 < 62^16. */
  lemma SixteenDigitsHoldEightyEightBits()
    ensures TWO_88 < Pow(62, ALPHANUMERIC_STR_LENGTH)
  {
    assert Pow(62, 2) == 3844;
    assert Pow(62, 4) == 14776336;
    assert Pow(62, 6) == 56800235584;
    assert Pow(62, 8) == 218340105584896;
    assert Pow(62, 10) == 839299365868340224;
    assert Pow(62, 12) == 3226266762397899821056;
    assert Pow(62, 14) == 12401769434657526912139264;
    assert Pow(62, 16) == 47672401706823533450263330816;
  }

  // ----- the base-62 alphabet -----

  /** `b'0'..=b'9'`, `b'a'..=b'z'` or `b'A'..=b'Z'`. */
  predicate IsAlphanumeric(c: u8) {
    ('0' as int <= c <= '9' as int) || ('a' as int <= c <= 'z' as int) || ('A' as int <= c <= 'Z' as int)
  }

  /** `Alphanumeric::try_codepoint_to_digit`. */
  function TryCodepointToDigit(codepoint: u8): (r: Result<u8, Error>)
    ensures r.Ok? <==> IsAlphanumeric(codepoint)
    ensures r.Err? ==> r.error == NonAlphanumeric
    ensures r.Ok? ==> r.value < 62
    ensures r.Ok? && '0' as int <= codepoint <= '9' as int ==> r.value < 10
    ensures r.Ok? && 'a' as int <= codepoint <= 'z' as int ==> 10 <= r.value < 36
    ensures r.Ok? && 'A' as int <= codepoint <= 'Z' as int ==> 36 <= r.value
  {
    if '0' as int <= codepoint < '0' as int + 10 then Ok(codepoint - '0' as int)
    else if 'a' as int <= codepoint < 'a' as int + 26 then Ok(codepoint - 'a' as int + 10)
    else if 'A' as int <= codepoint < 'A' as int + 26 then Ok(codepoint - 'A' as int + 36)
    else Err(NonAlphanumeric)
  }

  /**
    `Alphanumeric::digit_to_codepoint`: 0-9 to `0`-`9`, 10-35 to `a`-`z`,
    36-61 to `A`-`Z`, undone by `TryCodepointToDigit`.
   */
  function DigitToCodepoint(digit: u8): (c: u8)
    requires digit < 62
    ensures IsAlphanumeric(c)
    ensures TryCodepointToDigit(c) == Ok(digit)
  {
    if digit < 10 then digit + '0' as int
    else if digit < 36 then digit - 10 + 'a' as int
    else digit - 36 + 'A' as int
  }

  /** `TryCodepointToDigit` is undone by `DigitToCodepoint` on the 62 alphanumeric bytes. */
  lemma CodepointDigitRoundTrip(c: u8)
    requires IsAlphanumeric(c)
    ensures DigitToCodepoint(TryCodepointToDigit(c).value) == c
  {
  }

  // ----- encoding -----

  /** The 16 base-62 digits of the top 88 bits. */
  function EncodedDigits(t: Token): (ds: seq<nat>)
    ensures |ds| == ALPHANUMERIC_STR_LENGTH
    ensures forall i :: 0 <= i < |ds| ==> ds[i] < 62
  {
    Digits(t.id / TWO_40, 62, ALPHANUMERIC_STR_LENGTH)
  }

  /** The bytes `encode` writes. */
  function AlphanumericBytes(t: Token): (bs: seq<u8>)
    ensures |bs| == ALPHANUMERIC_STR_LENGTH
    ensures forall i :: 0 <= i < |bs| ==> IsAlphanumeric(bs[i]) && TryCodepointToDigit(bs[i]) == Ok(EncodedDigits(t)[i])
  {
    var ds := EncodedDigits(t);
    seq(ALPHANUMERIC_STR_LENGTH, i requires 0 <= i < ALPHANUMERIC_STR_LENGTH => DigitToCodepoint(ds[i]))
  }

  /** Bytes read as text, one character per byte. */
  function AsText(bs: seq<u8>): (s: string)
    ensures |s| == |bs| && forall i :: 0 <= i < |bs| ==> s[i] as int == bs[i]
  {
    seq(|bs|, i requires 0 <= i < |bs| => bs[i] as char)
  }

  /** The short alphanumeric form of a token. */
  function AlphanumericText(t: Token): (s: string)
    ensures |s| == ALPHANUMERIC_STR_LENGTH
    ensures forall i :: 0 <= i < |s| ==> IsAlphanumericChar(s[i]) && CharDigit(s[i]) == EncodedDigits(t)[i]
  {
    AsText(AlphanumericBytes(t))
  }

  /** `Alphanumeric::encode_buffer`: sixteen `'0'` bytes. */
  method EncodeBuffer() returns (buffer: array<u8>)
    ensures fresh(buffer) && buffer.Length == ALPHANUMERIC_STR_LENGTH
    ensures forall i :: 0 <= i < buffer.Length ==> buffer[i] == '0' as int
  {
    buffer := new u8[ALPHANUMERIC_STR_LENGTH](_ => '0' as int);
  }

  /** One turn of `encode`'s loop: the digit at `i` is `v % 62`, and the digits before it are those of `v / 62`. */
  lemma PeelDigit(ds: seq<nat>, v: nat, i: nat)
    requires i + 1 <= |ds| && ds == Digits(v, 62, i + 1) + ds[i + 1..]
    ensures ds[i] == v % 62
    ensures ds == Digits(v / 62, 62, i) + ds[i..]
  {
    var head := Digits(v / 62, 62, i);
    assert ds == head + ([v % 62] + ds[i + 1..]);
    assert ds[i..] == [v % 62] + ds[i + 1..];
  }

  /** The loop of `encode`: the last 16 base-62 digits of `v0`, as codepoints, least significant at index 15. */
  method WriteBase62(v0: nat, buffer: array<u8>)
    requires buffer.Length == ALPHANUMERIC_STR_LENGTH
    modifies buffer
    ensures forall k :: 0 <= k < ALPHANUMERIC_STR_LENGTH ==> buffer[k] == DigitToCodepoint(Digits(v0, 62, ALPHANUMERIC_STR_LENGTH)[k])
  {
    var v := v0;
    ghost var ds := Digits(v0, 62, ALPHANUMERIC_STR_LENGTH);
    var i := ALPHANUMERIC_STR_LENGTH;
    while i > 0
      invariant 0 <= i <= ALPHANUMERIC_STR_LENGTH
      invariant ds == Digits(v, 62, i) + ds[i..]
      invariant forall k :: i <= k < ALPHANUMERIC_STR_LENGTH ==> buffer[k] == DigitToCodepoint(ds[k])
    {
      i := i - 1;
      var rem := v % 62;
      PeelDigit(ds, v, i);
      v := v / 62;
      buffer[i] := DigitToCodepoint(rem);
    }
  }

  /**
    `Alphanumeric::encode`: writes the base-62 digits of the top 88 bits into
    `buffer`, least significant digit at index 15, and returns them as text.
   */
  method Encode(t: Token, buffer: array<u8>) returns (s: string)
    requires buffer.Length == ALPHANUMERIC_STR_LENGTH
    modifies buffer
    ensures buffer[..] == AlphanumericBytes(t)
    ensures s == AlphanumericText(t)
  {
    WriteBase62(t.id / TWO_40, buffer);
    assert buffer[..] == AlphanumericBytes(t);
    s := AsText(buffer[..]);
  }

  /** `Display for Alphanumeric`: a fresh buffer, encoded. */
  method AlphanumericDisplay(t: Token) returns (s: string)
    ensures s == AlphanumericText(t)
  {
    var buffer := EncodeBuffer();
    s := Encode(t, buffer);
  }

  // ----- parsing -----

  /** `u8::try_from(char)`: the code points 0-255 convert, every other fails. */
  function CharToU8(c: char): (r: Result<u8, Error>)
    ensures r.Ok? <==> c as int < 256
    ensures r.Ok? ==> r.value as char == c
    ensures r.Err? ==> r.error == NonAscii
  {
    if c as int < 256 then Ok(c as int) else Err(NonAscii)
  }

  /** One character is acceptable when it converts to an alphanumeric byte. */
  predicate IsAlphanumericChar(c: char) {
    c as int < 256 && IsAlphanumeric(c as int)
  }

  /** The digit an alphanumeric character stands for. */
  function CharDigit(c: char): (d: nat)
    requires IsAlphanumericChar(c)
    ensures d < 62
  {
    TryCodepointToDigit(c as int).value
  }

  function DigitsOfText(s: string): (ds: seq<nat>)
    requires forall i :: 0 <= i < |s| ==> IsAlphanumericChar(s[i])
    ensures |ds| == |s| && forall i :: 0 <= i < |s| ==> ds[i] == CharDigit(s[i])
  {
    seq(|s|, i requires 0 <= i < |s| => CharDigit(s[i]))
  }

  /**
    The `try_fold` of `parse_alphanumeric`: left to right, accumulate
    `v * 62 + digit` and the count, stopping at the first bad character.
    The accumulator is unbounded; the source's `u128` can overflow only past
    21 characters, where the length check fails anyway.
   */
  function ParseFold(s: string): (r: Result<(nat, nat), Error>)
    ensures r.Ok? ==> r.value.1 == |s| && forall i :: 0 <= i < |s| ==> IsAlphanumericChar(s[i])
    ensures r.Err? ==> r.error == NonAscii || r.error == NonAlphanumeric
    decreases |s|
  {
    if s == [] then Ok((0, 0))
    else
      var pre := s[..|s| - 1];
      assert forall i :: 0 <= i < |pre| ==> pre[i] == s[i];
      match ParseFold(pre)
      case Err(e) => Err(e)
      case Ok((v, l)) =>
        match CharToU8(s[|s| - 1])
        case Err(e) => Err(e)
        case Ok(codepoint) =>
          match TryCodepointToDigit(codepoint)
          case Err(e) => Err(e)
          case Ok(digit) => Ok((v * 62 + digit, l + 1))
  }

  /** `Token::parse_alphanumeric`. */
  function ParseAlphanumeric(s: string): (r: Result<Token, Error>)
    ensures r.Ok? ==> |s| == ALPHANUMERIC_STR_LENGTH && forall i :: 0 <= i < |s| ==> IsAlphanumericChar(s[i])
    ensures r == Err(UnexpectedLength) ==>
              |s| != ALPHANUMERIC_STR_LENGTH && forall i :: 0 <= i < |s| ==> IsAlphanumericChar(s[i])
  {
    match ParseFold(s)
    case Err(e) => Err(e)
    case Ok((v, l)) =>
      if l != ALPHANUMERIC_STR_LENGTH then Err(UnexpectedLength)
      else Ok(Token((v * TWO_40) % TWO_128))
  }

  /** On an all-alphanumeric string the fold reads the base-62 number and counts the characters. */
  lemma {:induction false} ParseFoldAlphanumeric(s: string)
    requires forall i :: 0 <= i < |s| ==> IsAlphanumericChar(s[i])
    ensures ParseFold(s) == Ok((Value(DigitsOfText(s), 62), |s|))
    decreases |s|
  {
    if s != [] {
      var pre := s[..|s| - 1];
      ParseFoldAlphanumeric(pre);
      assert DigitsOfText(s)[..|s| - 1] == DigitsOfText(pre);
    }
  }

  /** The first character that is not alphanumeric decides the error, before any length check. */
  lemma {:induction false} ParseFoldFirstBad(s: string, i: nat)
    requires i < |s| && !IsAlphanumericChar(s[i])
    requires forall j :: 0 <= j < i ==> IsAlphanumericChar(s[j])
    ensures ParseFold(s) == Err(if s[i] as int >= 256 then NonAscii else NonAlphanumeric)
    decreases |s|
  {
    var pre := s[..|s| - 1];
    if i < |s| - 1 {
      ParseFoldFirstBad(pre, i);
    } else {
      ParseFoldAlphanumeric(pre);
    }
  }

  /** The first character that is not alphanumeric is the error of the whole parse, whatever the length. */
  lemma ParseAlphanumericFirstBad(s: string, i: nat)
    requires i < |s| && !IsAlphanumericChar(s[i])
    requires forall j :: 0 <= j < i ==> IsAlphanumericChar(s[j])
    ensures ParseAlphanumeric(s) == Err(if s[i] as int >= 256 then NonAscii else NonAlphanumeric)
  {
    ParseFoldFirstBad(s, i);
  }

  /**
    What `parse_alphanumeric` gives: an alphanumeric string of 16 characters
    is the token `(base-62 value * 2^40) mod 2^128`; any other length is
    `UnexpectedLength`.
   */
  lemma ParseAlphanumericOk(s: string)
    requires forall i :: 0 <= i < |s| ==> IsAlphanumericChar(s[i])
    ensures |s| == ALPHANUMERIC_STR_LENGTH ==>
              ParseAlphanumeric(s) == Ok(Token((Value(DigitsOfText(s), 62) * TWO_40) % TWO_128))
    ensures |s| != ALPHANUMERIC_STR_LENGTH ==> ParseAlphanumeric(s) == Err(UnexpectedLength)
  {
    ParseFoldAlphanumeric(s);
  }

  /** The short form is alphanumeric, and its characters stand for the encoded digits. */
  lemma AlphanumericTextDigits(t: Token)
    ensures forall i :: 0 <= i < |AlphanumericText(t)| ==> IsAlphanumericChar(AlphanumericText(t)[i])
    ensures DigitsOfText(AlphanumericText(t)) == EncodedDigits(t)
  {
    var s := AlphanumericText(t);
    assert forall i :: 0 <= i < |s| ==> DigitsOfText(s)[i] == EncodedDigits(t)[i];
  }

  /** The top 88 bits, shifted back into place, are the id with its low 40 bits cleared. */
  lemma TopBits(id: u128)
    ensures id / TWO_40 < TWO_88
    ensures (id / TWO_40) * TWO_40 == id - id % TWO_40
    ensures ((id / TWO_40) * TWO_40) % TWO_128 == (id / TWO_40) * TWO_40
  {
    DivMod(id, TWO_40);
    DivBound(id, TWO_40, TWO_88);
  }

  /** The short form parses back to the token with its low 40 bits cleared. */
  lemma EncodeParseRoundTrip(t: Token)
    ensures t.id - t.id % TWO_40 < TWO_128
    ensures ParseAlphanumeric(AlphanumericText(t)) == Ok(Token(t.id - t.id % TWO_40))
  {
    var top: nat := t.id / TWO_40;
    TopBits(t.id);
    SixteenDigitsHoldEightyEightBits();
    AlphanumericTextDigits(t);
    ParseAlphanumericOk(AlphanumericText(t));
    ValueOfDigits(top, 62, ALPHANUMERIC_STR_LENGTH);
  }

  /** An 88-bit value shifted up by 40 bits stays below 2^128 and shifts back down. */
  lemma ShiftRoundTrip(v: nat)
    requires v < TWO_88
    ensures v * TWO_40 < TWO_128 && (v * TWO_40) % TWO_128 == v * TWO_40
    ensures (v * TWO_40) / TWO_40 == v
  {
    AffineBound(v, TWO_40, 0, TWO_88);
    DivOfAffine(v, TWO_40, 0);
  }

  /** A token whose encoded digits are those of an alphanumeric text has that text as its short form. */
  lemma TextOfDigits(s: string, t: Token)
    requires |s| == ALPHANUMERIC_STR_LENGTH
    requires forall i :: 0 <= i < |s| ==> IsAlphanumericChar(s[i])
    requires EncodedDigits(t) == DigitsOfText(s)
    ensures AlphanumericText(t) == s
  {
    var text := AlphanumericText(t);
    forall i | 0 <= i < |s|
      ensures text[i] == s[i]
    {
      CodepointDigitRoundTrip(s[i] as int);
    }
  }

  /**
    Conversely, a 16-character alphanumeric string whose value fits in 88 bits
    is the short form of the token it parses to.
   */
  lemma ParseEncodeRoundTrip(s: string)
    requires |s| == ALPHANUMERIC_STR_LENGTH
    requires forall i :: 0 <= i < |s| ==> IsAlphanumericChar(s[i])
    requires Value(DigitsOfText(s), 62) < TWO_88
    ensures ParseAlphanumeric(s).Ok?
    ensures AlphanumericText(ParseAlphanumeric(s).value) == s
  {
    var ds := DigitsOfText(s);
    var v := Value(ds, 62);
    ParseAlphanumericOk(s);
    ShiftRoundTrip(v);
    var t := Token(v * TWO_40);
    assert ParseAlphanumeric(s) == Ok(t);
    DigitsOfValue(ds, 62);
    TextOfDigits(s, t);
  }

  // ----- hex -----

  /** `Uuid::as_bytes`: the 16 bytes, most significant first. */
  function AsBytes(t: Token): (bs: seq<u8>)
    ensures |bs| == 16
    ensures Value(bs, 256) == t.id
  {
    var ds := Digits(t.id, 256, 16);
    var bs: seq<u8> := seq(16, i requires 0 <= i < 16 => ds[i]);
    assert bs == ds;
    SixteenBytesHoldU128();
    ValueOfDigits(t.id, 256, 16);
    bs
  }

  /** Sixteen bytes hold exactly the values of a `u128`. */
  lemma SixteenBytesHoldU128()
    ensures Pow(256, 16) == TWO_128
  {
    assert Pow(256, 0) == 1;
    assert Pow(256, 1) == 0x100;
    assert Pow(256, 2) == 0x1_0000;
    assert Pow(256, 3) == 0x100_0000;
    assert Pow(256, 4) == 0x1_0000_0000;
    assert Pow(256, 5) == 0x100_0000_0000;
    assert Pow(256, 6) == 0x1_0000_0000_0000;
    assert Pow(256, 7) == 0x100_0000_0000_0000;
    assert Pow(256, 8) == 0x1_0000_0000_0000_0000;
    assert Pow(256, 9) == 0x100_0000_0000_0000_0000;
    assert Pow(256, 10) == 0x1_0000_0000_0000_0000_0000;
    assert Pow(256, 11) == 0x100_0000_0000_0000_0000_0000;
    assert Pow(256, 12) == 0x1_0000_0000_0000_0000_0000_0000;
    assert Pow(256, 13) == 0x100_0000_0000_0000_0000_0000_0000;
    assert Pow(256, 14) == 0x1_0000_0000_0000_0000_0000_0000_0000;
    assert Pow(256, 15) == 0x100_0000_0000_0000_0000_0000_0000_0000;
  }

  predicate IsLowerHex(c: u8) {
    ('0' as int <= c <= '9' as int) || ('a' as int <= c <= 'f' as int)
  }

  /** The nibble that a lower-case hex byte stands for. */
  function HexWordValue(c: u8): (w: nat)
    requires IsLowerHex(c)
    ensures w < 16
  {
    if c <= '9' as int then c - '0' as int else c - 'a' as int + 10
  }

  /** `Hex::word_to_codepoint`: a nibble as a lower-case hex byte. */
  function WordToCodepoint(word: u8): (c: u8)
    requires word < 16
    ensures IsLowerHex(c) && HexWordValue(c) == word
  {
    if 0 <= word < 0xa then word + '0' as int else word - 10 + 'a' as int
  }

  /** `Hex::digit_to_codepoints`: a byte as (upper nibble, lower nibble) hex bytes. */
  function DigitToCodepoints(digit: u8): (r: (u8, u8))
    ensures IsLowerHex(r.0) && IsLowerHex(r.1)
    ensures HexWordValue(r.0) * 16 + HexWordValue(r.1) == digit
  {
    (WordToCodepoint(digit / 16), WordToCodepoint(digit % 16))
  }

  /** The bytes `Display for Hex` writes: two per byte of the first 11. */
  function HexBytes(t: Token): (hs: seq<u8>)
    ensures |hs| == 2 * BYTES_CUT
  {
    var bs := AsBytes(t);
    seq(2 * BYTES_CUT, k requires 0 <= k < 2 * BYTES_CUT =>
      var pair := DigitToCodepoints(bs[k / 2]);
      if k % 2 == 0 then pair.0 else pair.1)
  }

  /** Positions `2i` and `2i + 1` of the hex form hold the two nibbles of byte `i`. */
  lemma HexPairAt(t: Token, i: nat)
    requires i < BYTES_CUT
    ensures HexBytes(t)[2 * i] == DigitToCodepoints(AsBytes(t)[i]).0
    ensures HexBytes(t)[2 * i + 1] == DigitToCodepoints(AsBytes(t)[i]).1
  {
    assert (2 * i) / 2 == i && (2 * i + 1) / 2 == i;
    assert (2 * i) % 2 == 0 && (2 * i + 1) % 2 == 1;
  }

  /** Reads lower-case hex text back as bytes, two characters per byte. */
  function HexDecode(hs: seq<u8>): (bs: seq<nat>)
    requires |hs| % 2 == 0
    requires forall k :: 0 <= k < |hs| ==> IsLowerHex(hs[k])
    ensures |bs| == |hs| / 2
  {
    seq(|hs| / 2, i requires 0 <= i < |hs| / 2 => HexWordValue(hs[2 * i]) * 16 + HexWordValue(hs[2 * i + 1]))
  }

  /** Every byte of the hex form is a lower-case hex character. */
  lemma HexIsLower(t: Token)
    ensures forall k :: 0 <= k < |HexBytes(t)| ==> IsLowerHex(HexBytes(t)[k])
  {
    var hs := HexBytes(t);
    forall k | 0 <= k < |hs|
      ensures IsLowerHex(hs[k])
    {
      HexPairAt(t, k / 2);
      assert k == 2 * (k / 2) || k == 2 * (k / 2) + 1;
    }
  }

  /** Text made of the nibble pairs of `bs` decodes to `bs`. */
  lemma DecodePairs(hs: seq<u8>, bs: seq<u8>)
    requires |hs| == 2 * |bs|
    requires forall i :: 0 <= i < |bs| ==>
      hs[2 * i] == DigitToCodepoints(bs[i]).0 && hs[2 * i + 1] == DigitToCodepoints(bs[i]).1
    requires forall k :: 0 <= k < |hs| ==> IsLowerHex(hs[k])
    ensures HexDecode(hs) == bs
  {
    var decoded := HexDecode(hs);
    forall i | 0 <= i < |bs|
      ensures decoded[i] == bs[i]
    {
      var pair := DigitToCodepoints(bs[i]);
      assert hs[2 * i] == pair.0 && hs[2 * i + 1] == pair.1;
    }
  }

  /** The hex form is 22 lower-case hex characters and reads back as the first 11 bytes. */
  lemma HexRoundTrip(t: Token)
    ensures forall k :: 0 <= k < |HexBytes(t)| ==> IsLowerHex(HexBytes(t)[k])
    ensures HexDecode(HexBytes(t)) == AsBytes(t)[..BYTES_CUT]
  {
    HexIsLower(t);
    var bs := AsBytes(t)[..BYTES_CUT];
    forall i | 0 <= i < BYTES_CUT
      ensures HexBytes(t)[2 * i] == DigitToCodepoints(bs[i]).0
      ensures HexBytes(t)[2 * i + 1] == DigitToCodepoints(bs[i]).1
    {
      HexPairAt(t, i);
    }
    DecodePairs(HexBytes(t), bs);
  }

  /** Two texts of `n` pairs that agree pair by pair are equal. */
  lemma PairwiseEqual(a: seq<u8>, b: seq<u8>, n: nat)
    requires |a| == 2 * n && |b| == 2 * n
    requires forall j :: 0 <= j < n ==> a[2 * j] == b[2 * j] && a[2 * j + 1] == b[2 * j + 1]
    ensures a == b
  {
    forall k | 0 <= k < 2 * n
      ensures a[k] == b[k]
    {
      var j := k / 2;
      assert k == 2 * j || k == 2 * j + 1;
    }
  }

  /** Text holding the nibble pair of byte `j` at positions `2j` and `2j + 1` is the hex form. */
  lemma HexFromPairs(t: Token, bs: seq<u8>, hs: seq<u8>)
    requires bs == AsBytes(t)[..BYTES_CUT] && |hs| == 2 * BYTES_CUT
    requires forall j :: 0 <= j < |bs| ==>
      hs[2 * j] == DigitToCodepoints(bs[j]).0 && hs[2 * j + 1] == DigitToCodepoints(bs[j]).1
    ensures hs == HexBytes(t)
  {
    forall j | 0 <= j < BYTES_CUT
      ensures hs[2 * j] == HexBytes(t)[2 * j] && hs[2 * j + 1] == HexBytes(t)[2 * j + 1]
    {
      HexPairAt(t, j);
    }
    PairwiseEqual(hs, HexBytes(t), BYTES_CUT);
  }

  /** The loop of `Display for Hex`: byte `j` written as hex digits to positions `2j` and `2j + 1`. */
  method WriteHexPairs(bytes: seq<u8>, buf: array<u8>)
    requires buf.Length == 2 * |bytes|
    modifies buf
    ensures forall j :: 0 <= j < |bytes| ==>
      buf[2 * j] == DigitToCodepoints(bytes[j]).0 && buf[2 * j + 1] == DigitToCodepoints(bytes[j]).1
  {
    for i := 0 to |bytes|
      invariant forall j :: 0 <= j < i ==>
        buf[2 * j] == DigitToCodepoints(bytes[j]).0 && buf[2 * j + 1] == DigitToCodepoints(bytes[j]).1
    {
      var (upper, lower) := DigitToCodepoints(bytes[i]);
      buf[i * 2] := upper;
      buf[i * 2 + 1] := lower;
    }
  }

  /** `Display for Hex`: fills a 22-byte buffer two bytes at a time and returns it as text. */
  method HexDisplay(t: Token) returns (s: string)
    ensures s == AsText(HexBytes(t))
  {
    var bytes := AsBytes(t)[..BYTES_CUT];
    var encodeBuf := new u8[BYTES_CUT * 2];
    WriteHexPairs(bytes, encodeBuf);
    HexFromPairs(t, bytes, encodeBuf[..]);
    s := AsText(encodeBuf[..]);
  }
}
