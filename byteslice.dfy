/** ByteSlice: the hash and salt codec. A byte sequence is stored as the BSON
    string of its lower-case hex text and read back by parsing that framing by
    hand. The same code is in data/byteslice.go and data/authcredentials.go. */
module ByteSlice {
  import opened Bytes
  import opened Wrappers
  import opened Errors
  import Hex
  import Bson

  /** What UnmarshalBSONValue leaves behind: the value of `*bs` afterwards and the
      error it returns. */
  datatype Decoded = Decoded(bs: seq<Byte>, err: Option<Error>)

  /** MarshalBSONValue: hex-encode, then frame as a BSON string. The driver's
      MarshalValue of a Go string never fails, so neither does this. */
  function MarshalBSONValue(bs: seq<Byte>): (Bson.BsonType, seq<Byte>) {
    (Bson.StringType, Bson.MarshalString(Hex.EncodeToString(bs)))
  }

  /** io.ReadFull's error when `want` bytes were asked for and `got` arrived. */
  function ReadFullError(want: nat, got: nat): Option<Error> {
    if got >= want then None else if got == 0 then Some(EOF) else Some(UnexpectedEOF)
  }

  /** The int32 length prefix, when four bytes are there to read it from. */
  function DeclaredLength(bdata: seq<Byte>): int
    requires |bdata| >= 4
  {
    Bson.ReadInt32LE(bdata)
  }

  /** The outcome of UnmarshalBSONValue on `bdata` for a target holding `prior`:
      read the int32 n, read exactly n more bytes, drop the last of them
      whatever it is, hex-decode the rest. */
  function Unmarshaled(bdata: seq<Byte>, prior: seq<Byte>): Decoded {
    if |bdata| < 4 then Decoded(prior, ReadFullError(4, |bdata|))
    else
      var n := DeclaredLength(bdata);
      if n < 0 then Decoded(prior, Some(PanicMakeSliceLen))
      else if |bdata| - 4 < n then Decoded(prior, ReadFullError(n, |bdata| - 4))
      else if n == 0 then Decoded(prior, Some(PanicSliceBounds))
      else
        var out := Hex.DecodeString(bdata[4..4 + n - 1]);
        Decoded(out.0, out.1)
  }

  /** io.ReadFull(buf, dst) on a bytes.Buffer over `src` whose read offset is `off`:
      copies as many bytes as are left, up to the length of dst. */
  method ReadFull(src: seq<Byte>, off: nat, dst: array<Byte>) returns (got: nat, err: Option<Error>)
    requires off <= |src|
    modifies dst
    ensures got == if |src| - off < dst.Length then |src| - off else dst.Length
    ensures dst[..got] == src[off..off + got]
    ensures err == ReadFullError(dst.Length, got)
    ensures dst[got..] == old(dst[got..])
  {
    got := 0;
    while got < dst.Length && off + got < |src|
      invariant got <= dst.Length && off + got <= |src|
      invariant dst[..got] == src[off..off + got]
      invariant forall i | got <= i < dst.Length :: dst[i] == old(dst[i])
    {
      dst[got] := src[off + got];
      got := got + 1;
    }
    err := ReadFullError(dst.Length, got);
  }

  /** UnmarshalBSONValue. `prior` is what `*bs` held before the call and `bs` what
      it holds after. The type tag `btype` is accepted and never consulted. */
  method UnmarshalBSONValue(btype: Bson.BsonType, bdata: seq<Byte>, prior: seq<Byte>)
    returns (bs: seq<Byte>, err: Option<Error>)
    ensures Decoded(bs, err) == Unmarshaled(bdata, prior)
  {
    bs := prior;
    var off: nat := 0;
    // binary.Read(buf, binary.LittleEndian, &n) reads the int32 through a 4-byte buffer
    var word := new Byte[4];
    var got;
    got, err := ReadFull(bdata, off, word);
    off := off + got;
    if err != None {
      return;
    }
    assert word[..] == bdata[..4];
    var n := Bson.ReadInt32LE(word[..]);
    assert n == DeclaredLength(bdata);
    if n < 0 {
      err := Some(PanicMakeSliceLen);
      return;
    }
    var data := new Byte[n];
    got, err := ReadFull(bdata, off, data);
    off := off + got;
    if err != None {
      return;
    }
    if n == 0 {
      err := Some(PanicSliceBounds);
      return;
    }
    assert data[..n] == bdata[4..4 + n];
    assert data[..n - 1] == data[..n][..n - 1];
    assert data[..n - 1] == bdata[4..4 + n - 1];
    var decoded := Hex.DecodeString(data[..n - 1]);
    bs, err := decoded.0, decoded.1;
  }

  /** The marshalled payload is prefix ++ hex bytes ++ [0]. */
  lemma PayloadShape(bs: seq<Byte>)
    ensures |Utf8(Hex.EncodeToString(bs))| == 2 * |bs|
    ensures MarshalBSONValue(bs).1 == Bson.Int32LE(2 * |bs| + 1) + Utf8(Hex.EncodeToString(bs)) + [0]
  {
    var hex := Hex.EncodeToString(bs);
    assert IsAscii(hex) by {
      forall i | 0 <= i < |hex| ensures hex[i] as int < 128 {
        assert Hex.IsLowerHexChar(hex[i]);
      }
    }
    Utf8OfAscii(hex);
    var u := Utf8(hex);
    var m := |u| + 1;
    assert m == 2 * |bs| + 1;
    assert MarshalBSONValue(bs).1 == Bson.Int32LE(m) + u + [0];
  }

  lemma PayloadContent(bs: seq<Byte>)
    ensures forall i | 4 <= i < 2 * |bs| + 4 :: MarshalBSONValue(bs).1[i] == Hex.EncodeToString(bs)[i - 4] as int
  {
    var hex := Hex.EncodeToString(bs);
    Utf8OfAscii(hex);
    PayloadShape(bs);
    var r := MarshalBSONValue(bs).1;
    forall i | 4 <= i < 2 * |bs| + 4 ensures r[i] == hex[i - 4] as int {
      assert r[i] == Utf8(hex)[i - 4];
    }
  }

  lemma PayloadPrefix(bs: seq<Byte>)
    requires 2 * |bs| + 1 < Bson.TwoTo31
    ensures DeclaredLength(MarshalBSONValue(bs).1) == 2 * |bs| + 1
  {
    PayloadShape(bs);
    var prefix := Bson.Int32LE(2 * |bs| + 1);
    var r := MarshalBSONValue(bs).1;
    Bson.ReadInt32LEOfInt32LE(2 * |bs| + 1);
    assert r[0] == prefix[0] && r[1] == prefix[1] && r[2] == prefix[2] && r[3] == prefix[3];
  }

  /** The marshalled payload, byte for byte: the int32 2*|bs|+1 in little-endian
      order, the lower-case hex digits of bs, one zero byte; 2*|bs|+5 bytes in all.
      The prefix reads back as 2*|bs|+1 whenever that fits in an int32. */
  lemma MarshalFraming(bs: seq<Byte>)
    ensures MarshalBSONValue(bs).0 == Bson.StringType
    ensures |MarshalBSONValue(bs).1| == 2 * |bs| + 5
    ensures MarshalBSONValue(bs).1[..4] == Bson.Int32LE(2 * |bs| + 1)
    ensures forall i | 4 <= i < 2 * |bs| + 4 :: MarshalBSONValue(bs).1[i] == Hex.EncodeToString(bs)[i - 4] as int
    ensures MarshalBSONValue(bs).1[2 * |bs| + 4] == 0
    ensures 2 * |bs| + 1 < Bson.TwoTo31 ==> DeclaredLength(MarshalBSONValue(bs).1) == 2 * |bs| + 1
  {
    PayloadShape(bs);
    PayloadContent(bs);
    if 2 * |bs| + 1 < Bson.TwoTo31 {
      PayloadPrefix(bs);
    }
  }

  /** Round trip: unmarshalling the marshalled payload restores the bytes exactly,
      including the empty sequence, whatever the target held before. */
  lemma RoundTrip(bs: seq<Byte>, prior: seq<Byte>)
    requires 2 * |bs| + 1 < Bson.TwoTo31
    ensures Unmarshaled(MarshalBSONValue(bs).1, prior) == Decoded(bs, None)
  {
    var hex := Hex.EncodeToString(bs);
    var r := MarshalBSONValue(bs).1;
    PayloadShape(bs);
    PayloadPrefix(bs);
    assert r[4..4 + 2 * |bs|] == Utf8(hex);
    Hex.DecodeEncode(bs);
  }

  /** The two truncation cases: fewer than four bytes, or fewer than n bytes after
      the prefix. */
  predicate Truncated(bdata: seq<Byte>) {
    |bdata| < 4 || (0 < DeclaredLength(bdata) && |bdata| - 4 < DeclaredLength(bdata))
  }

  /** A truncated buffer is reported as EOF or UnexpectedEOF and the target keeps its
      old value; no other input yields those errors. */
  lemma TruncatedKeepsTarget(bdata: seq<Byte>, prior: seq<Byte>)
    ensures var r := Unmarshaled(bdata, prior);
      (r.err == Some(EOF) || r.err == Some(UnexpectedEOF)) <==> Truncated(bdata)
    ensures Truncated(bdata) ==> Unmarshaled(bdata, prior).bs == prior
  {
    if !Truncated(bdata) && |bdata| >= 4 {
      var n := DeclaredLength(bdata);
      if n > 0 {
        var content := bdata[4..4 + n - 1];
        var out := Hex.DecodeString(content);
        HexErrorIsNotEof(content);
      }
    }
  }

  lemma {:induction false} HexErrorIsNotEof(src: seq<Byte>)
    ensures Hex.DecodeString(src).1 != Some(EOF) && Hex.DecodeString(src).1 != Some(UnexpectedEOF)
  {
    if |src| >= 2 && Hex.IsHexByte(src[0]) && Hex.IsHexByte(src[1]) {
      HexErrorIsNotEof(src[2..]);
    }
  }

  /** The two unguarded lengths: a negative n makes `make` panic and n == 0 makes
      the slice data[:-1] panic; both leave the target untouched. */
  lemma UnguardedLengths(bdata: seq<Byte>, prior: seq<Byte>)
    ensures var r := Unmarshaled(bdata, prior);
      r.err == Some(PanicMakeSliceLen) <==> |bdata| >= 4 && DeclaredLength(bdata) < 0
    ensures var r := Unmarshaled(bdata, prior);
      r.err == Some(PanicSliceBounds) <==> |bdata| >= 4 && DeclaredLength(bdata) == 0
    ensures var r := Unmarshaled(bdata, prior);
      (r.err == Some(PanicMakeSliceLen) || r.err == Some(PanicSliceBounds)) ==> r.bs == prior
  {
    if |bdata| >= 4 && DeclaredLength(bdata) > 0 && |bdata| - 4 >= DeclaredLength(bdata) {
      HexErrorIsNotPanic(bdata[4..4 + DeclaredLength(bdata) - 1]);
    }
  }

  lemma {:induction false} HexErrorIsNotPanic(src: seq<Byte>)
    ensures Hex.DecodeString(src).1 != Some(PanicMakeSliceLen)
    ensures Hex.DecodeString(src).1 != Some(PanicSliceBounds)
  {
    if |src| >= 2 && Hex.IsHexByte(src[0]) && Hex.IsHexByte(src[1]) {
      HexErrorIsNotPanic(src[2..]);
    }
  }

  /** Only the first n bytes after the prefix are read: anything after them is ignored. */
  lemma TrailingBytesIgnored(bdata: seq<Byte>, extra: seq<Byte>, prior: seq<Byte>)
    requires |bdata| >= 4 && 0 <= DeclaredLength(bdata) <= |bdata| - 4
    ensures Unmarshaled(bdata + extra, prior) == Unmarshaled(bdata, prior)
  {
    var n := DeclaredLength(bdata);
    assert (bdata + extra)[..4] == bdata[..4];
    assert DeclaredLength(bdata + extra) == n;
    if n > 0 {
      assert (bdata + extra)[4..4 + n - 1] == bdata[4..4 + n - 1];
    }
  }

  /** The last of the n bytes is dropped whatever its value: a frame whose
      terminator is not zero decodes exactly as the well-formed one does. */
  lemma TerminatorUnchecked(content: seq<Byte>, t: Byte, prior: seq<Byte>)
    requires |content| + 1 < Bson.TwoTo31
    ensures Unmarshaled(Bson.Int32LE(|content| + 1) + content + [t], prior)
         == Unmarshaled(Bson.Int32LE(|content| + 1) + content + [0], prior)
  {
    var good := Bson.Int32LE(|content| + 1) + content + [0];
    var bad := Bson.Int32LE(|content| + 1) + content + [t];
    Bson.ReadInt32LEOfInt32LE(|content| + 1);
    assert good[..4] == bad[..4];
    assert DeclaredLength(good) == DeclaredLength(bad) == |content| + 1;
    assert good[4..4 + |content|] == content == bad[4..4 + |content|];
  }

  /** Once the framing is complete, the target is assigned the hex decoder's
      output on every path, the error path included: its new value does not
      depend on what it held. */
  lemma TargetAssignedOnHexPath(bdata: seq<Byte>, p1: seq<Byte>, p2: seq<Byte>)
    requires |bdata| >= 4 && 0 < DeclaredLength(bdata) <= |bdata| - 4
    ensures Unmarshaled(bdata, p1).bs == Unmarshaled(bdata, p2).bs
            == Hex.DecodeString(bdata[4..4 + DeclaredLength(bdata) - 1]).0
    ensures Unmarshaled(bdata, p1).err == Hex.DecodeString(bdata[4..4 + DeclaredLength(bdata) - 1]).1
  {
  }

  /** Concretely: content "00z" decodes its first pair and stops at 'z'; the target,
      which held [1, 2], now holds [0] while an error is returned. */
  lemma OverwrittenOnHexError()
    ensures Unmarshaled([4, 0, 0, 0, 48, 48, 122, 0], [1, 2]) == Decoded([0], Some(InvalidByte(122)))
  {
    var bdata: seq<Byte> := [4, 0, 0, 0, 48, 48, 122, 0];
    assert DeclaredLength(bdata) == 4;
    var content := bdata[4..7];
    assert content == [48, 48, 122];
    assert content[2..] == [122];
  }

  /** Decoding succeeds exactly when the framing is complete, n >= 1, and the n-1
      content bytes are an even number of hex digits (either case). */
  lemma SucceedsIff(bdata: seq<Byte>, prior: seq<Byte>)
    ensures Unmarshaled(bdata, prior).err == None
        <==> && |bdata| >= 4
             && 0 < DeclaredLength(bdata) <= |bdata| - 4
             && (DeclaredLength(bdata) - 1) % 2 == 0
             && forall i | 4 <= i < 4 + DeclaredLength(bdata) - 1 :: Hex.IsHexByte(bdata[i])
  {
    if |bdata| >= 4 && 0 < DeclaredLength(bdata) <= |bdata| - 4 {
      var n := DeclaredLength(bdata);
      var content := bdata[4..4 + n - 1];
      Hex.DecodeSucceedsIff(content);
      assert (forall i | 0 <= i < |content| :: Hex.IsHexByte(content[i]))
         <==> (forall i | 4 <= i < 4 + n - 1 :: Hex.IsHexByte(bdata[i])) by {
        assert forall i | 0 <= i < |content| :: content[i] == bdata[i + 4];
        assert forall i | 4 <= i < 4 + n - 1 :: bdata[i] == content[i - 4];
      }
    }
  }
}
