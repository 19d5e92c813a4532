/** Base16 as Go's encoding/hex implements it: the encoder writes the
    lower-case alphabet (section 8 of RFC 4648 makes Base16 case-insensitive),
    the decoder accepts either case. */
module Hex {
  import opened Bytes
  import opened Wrappers
  import opened Errors

  predicate IsLowerHexChar(c: char) {
    '0' <= c <= '9' || 'a' <= c <= 'f'
  }

  /** A byte the decoder accepts: [0-9a-fA-F]. */
  predicate IsHexByte(c: Byte) {
    48 <= c <= 57 || 65 <= c <= 70 || 97 <= c <= 102
  }

  /** The digit hex.EncodeToString writes for a nibble: "0123456789abcdef"[v]. */
  function DigitChar(v: int): (c: char)
    requires 0 <= v < 16
    ensures IsLowerHexChar(c) && c as int < 128
  {
    if v < 10 then (48 + v) as char else (87 + v) as char
  }

  function HexValue(c: Byte): (v: int)
    requires IsHexByte(c)
    ensures 0 <= v < 16
  {
    if c <= 57 then c - 48 else if c <= 70 then c - 55 else c - 87
  }

  /** hex.EncodeToString: two lower-case digits per byte, high nibble first. */
  function EncodeToString(b: seq<Byte>): (s: string)
    ensures |s| == 2 * |b|
    ensures forall i | 0 <= i < |s| :: IsLowerHexChar(s[i])
  {
    if b == [] then "" else [DigitChar(b[0] / 16), DigitChar(b[0] % 16)] + EncodeToString(b[1..])
  }

  /** hex.DecodeString: pairs are decoded left to right; at the first byte that is
      not a hex digit it stops with InvalidByte, and an odd trailing digit gives
      ErrLength. The bytes decoded before the failure are returned with the error,
      as Go's DecodeString returns src[:n] together with err. */
  function DecodeString(src: seq<Byte>): (r: (seq<Byte>, Option<Error>))
    ensures 2 * |r.0| <= |src|
  {
    if |src| == 0 then ([], None)
    else if !IsHexByte(src[0]) then ([], Some(InvalidByte(src[0])))
    else if |src| == 1 then ([], Some(ErrLength))
    else if !IsHexByte(src[1]) then ([], Some(InvalidByte(src[1])))
    else
      var rest := DecodeString(src[2..]);
      ([16 * HexValue(src[0]) + HexValue(src[1])] + rest.0, rest.1)
  }

  lemma HexValueOfDigit(v: int)
    requires 0 <= v < 16
    ensures IsHexByte(DigitChar(v) as int) && HexValue(DigitChar(v) as int) == v
  {
  }

  /** The bytes of one encoded byte, followed by anything. */
  lemma Utf8OfPair(x: Byte, tail: string)
    ensures Utf8([DigitChar(x / 16), DigitChar(x % 16)] + tail)
         == [DigitChar(x / 16) as int, DigitChar(x % 16) as int] + Utf8(tail)
  {
    var head: string := [DigitChar(x / 16), DigitChar(x % 16)];
    Utf8Append(head, tail);
    assert head[1..] == [head[1]];
    assert Utf8(head[1..]) == Utf8Rune(head[1]) + Utf8(head[1..][1..]);
    assert head[1..][1..] == [];
  }

  /** Decoding the two digits of x, followed by anything, gives x first. */
  lemma DecodePair(x: Byte, rest: seq<Byte>)
    ensures DecodeString([DigitChar(x / 16) as int, DigitChar(x % 16) as int] + rest)
         == ([x] + DecodeString(rest).0, DecodeString(rest).1)
  {
    var src := [DigitChar(x / 16) as int, DigitChar(x % 16) as int] + rest;
    HexValueOfDigit(x / 16);
    HexValueOfDigit(x % 16);
    assert src[2..] == rest;
  }

  /** What the encoder writes the decoder reads back: decode(encode(b)) == b, for
      every b including the empty one and those with leading zero bytes. */
  lemma {:induction false} DecodeEncode(b: seq<Byte>)
    ensures DecodeString(Utf8(EncodeToString(b))) == (b, None)
  {
    if b != [] {
      var tail := EncodeToString(b[1..]);
      assert EncodeToString(b) == [DigitChar(b[0] / 16), DigitChar(b[0] % 16)] + tail;
      Utf8OfPair(b[0], tail);
      DecodePair(b[0], Utf8(tail));
      DecodeEncode(b[1..]);
      assert [b[0]] + b[1..] == b;
    }
  }
  /** The decoder succeeds exactly on even-length input made only of hex digits. */
  lemma {:induction false} DecodeSucceedsIff(src: seq<Byte>)
    ensures DecodeString(src).1 == None
        <==> |src| % 2 == 0 && forall i | 0 <= i < |src| :: IsHexByte(src[i])
  {
    if |src| >= 2 && IsHexByte(src[0]) && IsHexByte(src[1]) {
      DecodeSucceedsIff(src[2..]);
      if DecodeString(src).1 == None {
        forall i | 0 <= i < |src| ensures IsHexByte(src[i]) {
          if i >= 2 { assert src[i] == src[2..][i - 2]; }
        }
      } else if forall i | 0 <= i < |src| :: IsHexByte(src[i]) {
        assert forall i | 0 <= i < |src[2..]| :: IsHexByte(src[2..][i]) by {
          forall i | 0 <= i < |src[2..]| ensures IsHexByte(src[2..][i]) { assert src[2..][i] == src[i + 2]; }
        }
      }
    }
  }

  /** On success every pair of digits gives one byte. */
  lemma {:induction false} DecodeLength(src: seq<Byte>)
    requires DecodeString(src).1 == None
    ensures 2 * |DecodeString(src).0| == |src|
  {
    if |src| >= 2 {
      DecodeLength(src[2..]);
    }
  }

  /** The nibble a lower-case hex digit stands for. */
  function NibbleOf(c: char): (v: int)
    requires IsLowerHexChar(c)
    ensures 0 <= v < 16 && DigitChar(v) == c
  {
    if c <= '9' then c as int - 48 else c as int - 87
  }

  lemma Nibbles(hi: int, lo: int)
    requires 0 <= hi < 16 && 0 <= lo < 16
    ensures (16 * hi + lo) / 16 == hi && (16 * hi + lo) % 16 == lo
  {
  }

  /** One step of EncodeDecode: two digits in front of text that round-trips. */
  lemma EncodeDecodeStep(x: Byte, tail: string, r: seq<Byte>)
    requires DecodeString(Utf8(tail)) == (r, None) && EncodeToString(r) == tail
    ensures DecodeString(Utf8([DigitChar(x / 16), DigitChar(x % 16)] + tail)) == ([x] + r, None)
    ensures EncodeToString([x] + r) == [DigitChar(x / 16), DigitChar(x % 16)] + tail
  {
    Utf8OfPair(x, tail);
    DecodePair(x, Utf8(tail));
    assert ([x] + r)[0] == x && ([x] + r)[1..] == r;
  }

  /** The other direction of the round trip: well-formed lower-case hex text is
      what the encoder writes for the bytes it decodes to. */
  lemma {:induction false} EncodeDecode(s: string)
    requires |s| % 2 == 0
    requires forall i | 0 <= i < |s| :: IsLowerHexChar(s[i])
    ensures DecodeString(Utf8(s)).1 == None
    ensures EncodeToString(DecodeString(Utf8(s)).0) == s
  {
    if s != [] {
      var hi := NibbleOf(s[0]);
      var lo := NibbleOf(s[1]);
      Nibbles(hi, lo);
      var x: Byte := 16 * hi + lo;
      var tail := s[2..];
      assert s == [DigitChar(x / 16), DigitChar(x % 16)] + tail;
      EncodeDecode(tail);
      EncodeDecodeStep(x, tail, DecodeString(Utf8(tail)).0);
    }
  }
}
