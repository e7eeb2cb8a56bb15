/**
 * The Parquet writer for DECIMAL columns. Decimals of precision up to 9 are written as
 * INT32, other short decimals (precision up to 18) as INT64, and long decimals as a
 * FIXED_LEN_BYTE_ARRAY holding the unscaled value in big-endian two's complement,
 * sign-extended to the column's fixed length (the DECIMAL logical type of the Apache
 * Parquet format).
 */
module ParquetDecimal {
  import opened Wrappers

  type Byte = x: int | 0 <= x < 256

  const TwoTo31: int := 0x8000_0000
  const TwoTo32: int := 0x1_0000_0000
  const TwoTo63: int := 0x8000_0000_0000_0000
  const TwoTo127: int := 0x8000_0000_0000_0000_0000_0000_0000_0000

  /** The largest precision stored in a `long` (`DecimalType.isShort`). */
  const MaxShortPrecision: nat := 18

  // ---------------------------------------------------------------------------
  // Big-endian two's complement
  // ---------------------------------------------------------------------------

  function Pow256(n: nat): (p: nat)
    ensures p >= 1
  {
    if n == 0 then 1 else 256 * Pow256(n - 1)
  }

  /** The bytes read as an unsigned big-endian number. */
  function Unsigned(bs: seq<Byte>): (u: nat)
    ensures u < Pow256(|bs|)
  {
    if bs == [] then 0 else Unsigned(bs[..|bs| - 1]) * 256 + bs[|bs| - 1]
  }

  /** The bytes read as a signed big-endian two's-complement number. */
  function TwosComplement(bs: seq<Byte>): int
  {
    if bs == [] then 0 else Unsigned(bs) - (if bs[0] >= 128 then Pow256(|bs|) else 0)
  }

  /** The value lies in the signed range of `k` bytes of two's complement. */
  predicate FitsBytes(v: int, k: nat)
    requires k >= 1
  {
    -128 * Pow256(k - 1) <= v < 128 * Pow256(k - 1)
  }

  /** A value fits `k` bytes exactly when its quotient by 256 fits one byte fewer. */
  lemma FitsBytesShift(v: int, k: nat)
    requires k >= 2
    ensures FitsBytes(v, k) <==> FitsBytes(v / 256, k - 1)
  {
    var p := Pow256(k - 2);
    assert Pow256(k - 1) == 256 * p;
    assert v == 256 * (v / 256) + v % 256;
  }

  /** One more low byte: if the quotient needs exactly `n` bytes, the value needs exactly `n + 1`. */
  lemma FitsBytesStep(v: int, n: nat)
    requires n >= 1
    requires !(-128 <= v < 128)
    requires FitsBytes(v / 256, n)
    requires n >= 2 ==> !FitsBytes(v / 256, n - 1)
    ensures FitsBytes(v, n + 1) && !FitsBytes(v, n)
  {
    FitsBytesShift(v, n + 1);
    if n >= 2 {
      FitsBytesShift(v, n);
    }
  }

  /**
   * `BigInteger.toByteArray`: big-endian two's-complement bytes of a value, as few as its
   * signed range allows — the value fits their number of bytes and not one byte fewer.
   */
  function ToByteArray(v: int): (bs: seq<Byte>)
    ensures |bs| >= 1
    ensures FitsBytes(v, |bs|)
    ensures |bs| >= 2 ==> !FitsBytes(v, |bs| - 1)
    decreases if v < 0 then -v else v
  {
    if -128 <= v < 128 then [v % 256]
    else
      var high := ToByteArray(v / 256);
      FitsBytesStep(v, |high|);
      high + [v % 256]
  }

  lemma {:induction false} UnsignedPrepend(b: Byte, bs: seq<Byte>)
    ensures Unsigned([b] + bs) == b * Pow256(|bs|) + Unsigned(bs)
  {
    if bs != [] {
      var n := |bs| - 1;
      var whole := [b] + bs;
      assert whole[..|whole| - 1] == [b] + bs[..n];
      assert whole[|whole| - 1] == bs[n];
      UnsignedPrepend(b, bs[..n]);
      var x, u, c := Pow256(n), Unsigned(bs[..n]), bs[n];
      assert bs[..n] == bs[..|bs| - 1];
      assert Unsigned(bs) == u * 256 + c;
      assert Pow256(n + 1) == x * 256;
      assert Unsigned(whole) == (b * x + u) * 256 + c;
      ShiftByte(b, x, u);
    }
  }

  /** Shifting a number one byte left distributes over its high and low parts. */
  lemma ShiftByte(b: int, x: int, u: int)
    ensures (b * x + u) * 256 == b * (x * 256) + u * 256
  {
  }

  lemma TwosComplementAppend(bs: seq<Byte>, r: Byte)
    requires bs != []
    ensures TwosComplement(bs + [r]) == 256 * TwosComplement(bs) + r
  {
    assert (bs + [r])[..|bs|] == bs;
    assert (bs + [r])[0] == bs[0];
  }

  /** The leading byte of the shortest encoding carries the sign of the value. */
  lemma {:induction false} ToByteArraySign(v: int)
    ensures ToByteArray(v)[0] >= 128 <==> v < 0
    decreases if v < 0 then -v else v
  {
    if !(-128 <= v < 128) {
      ToByteArraySign(v / 256);
    }
  }

  /** `toByteArray` round-trip: its bytes read back as the value. */
  lemma {:induction false} ToByteArrayDecodes(v: int)
    ensures TwosComplement(ToByteArray(v)) == v
    decreases if v < 0 then -v else v
  {
    if !(-128 <= v < 128) {
      ToByteArrayDecodes(v / 256);
      TwosComplementAppend(ToByteArray(v / 256), v % 256);
    }
  }

  /** A value in the signed range of `k` bytes has an encoding of at most `k` bytes. */
  lemma {:induction false} ToByteArrayLength(v: int, k: nat)
    requires k >= 1
    requires -128 * Pow256(k - 1) <= v < 128 * Pow256(k - 1)
    ensures |ToByteArray(v)| <= k
    decreases k
  {
    if !(-128 <= v < 128) {
      if k == 1 {
        assert false;
      }
      var q := v / 256;
      assert Pow256(k - 1) == 256 * Pow256(k - 2);
      assert -128 * Pow256(k - 2) <= q < 128 * Pow256(k - 2);
      ToByteArrayLength(q, k - 1);
    }
  }

  /** The byte `Arrays.fill` uses for a value of this sign. */
  function SignFill(negative: bool): Byte
  {
    if negative then 0xFF else 0x00
  }

  /** `n` copies of the sign byte. */
  function SignBytes(n: nat, negative: bool): (r: seq<Byte>)
    ensures |r| == n
    ensures forall i :: 0 <= i < n ==> r[i] == SignFill(negative)
  {
    if n == 0 then [] else [SignFill(negative)] + SignBytes(n - 1, negative)
  }

  /** Repeating the sign byte in front of a two's-complement number leaves its value unchanged. */
  lemma {:induction false} SignExtension(n: nat, bs: seq<Byte>)
    requires bs != []
    ensures TwosComplement(SignBytes(n, bs[0] >= 128) + bs) == TwosComplement(bs)
  {
    if n > 0 {
      var s := SignFill(bs[0] >= 128);
      var shorter := SignBytes(n - 1, bs[0] >= 128) + bs;
      assert SignBytes(n, bs[0] >= 128) + bs == [s] + shorter;
      assert shorter[0] >= 128 <==> bs[0] >= 128;
      SignExtension(n - 1, bs);
      UnsignedPrepend(s, shorter);
      var p := Pow256(|shorter|);
      assert Pow256(|[s] + shorter|) == 256 * p;
      if bs[0] >= 128 {
        calc {
          TwosComplement([s] + shorter);
          255 * p + Unsigned(shorter) - 256 * p;
          Unsigned(shorter) - p;
          TwosComplement(shorter);
        }
      } else {
        calc {
          TwosComplement([s] + shorter);
          0 * p + Unsigned(shorter);
          TwosComplement(shorter);
        }
      }
    } else {
      assert SignBytes(n, bs[0] >= 128) + bs == bs;
    }
  }

  // ---------------------------------------------------------------------------
  // paddingBigInteger
  // ---------------------------------------------------------------------------

  /** The fixed-length bytes of a value, or `None` when its encoding is longer than the column. */
  function Padded(typeLength: nat, value: int): (r: Option<seq<Byte>>)
    ensures r.None? <==> |ToByteArray(value)| > typeLength
    ensures r.Some? ==> |r.value| == typeLength && TwosComplement(r.value) == value
  {
    var bytes := ToByteArray(value);
    if |bytes| > typeLength then None
    else
      ToByteArraySign(value);
      SignExtension(typeLength - |bytes|, bytes);
      ToByteArrayDecodes(value);
      Some(SignBytes(typeLength - |bytes|, value < 0) + bytes)
  }

  /**
   * The padded form has the column's length, starts with sign bytes, ends with the
   * value's own bytes, and reads back as the value; it exists exactly when the value's
   * bytes fit the column.
   */
  lemma PaddedSignExtends(typeLength: nat, value: int)
    ensures Padded(typeLength, value).None? <==> |ToByteArray(value)| > typeLength
    ensures Padded(typeLength, value).Some? ==>
              var r := Padded(typeLength, value).value;
              var bytes := ToByteArray(value);
              && |r| == typeLength
              && (forall p :: 0 <= p < typeLength - |bytes| ==> r[p] == (if value < 0 then 0xFF else 0x00))
              && r[typeLength - |bytes|..] == bytes
              && TwosComplement(r) == value
  {
    var bytes := ToByteArray(value);
    if |bytes| <= typeLength {
      ToByteArraySign(value);
      SignExtension(typeLength - |bytes|, bytes);
      ToByteArrayDecodes(value);
      var r := Padded(typeLength, value).value;
      assert r[typeLength - |bytes|..] == bytes;
    }
  }

  /** A value in the signed range of the column's length always fits, so padding never fails. */
  lemma PaddedFits(typeLength: nat, value: int)
    requires typeLength >= 1
    requires -128 * Pow256(typeLength - 1) <= value < 128 * Pow256(typeLength - 1)
    ensures Padded(typeLength, value).Some?
  {
    ToByteArrayLength(value, typeLength);
  }

  /** An `Int128` value always fits a column of at least 16 bytes. */
  lemma Int128Fits(typeLength: nat, value: int)
    requires typeLength >= 16
    requires -TwoTo127 <= value < TwoTo127
    ensures Padded(typeLength, value).Some?
  {
    assert Pow256(15) * 128 == TwoTo127;
    ToByteArrayLength(value, 16);
  }

  /** Sign bytes in front and the value's bytes right-aligned behind them make up the padded form. */
  lemma PaddedFromLayout(typeLength: nat, value: int, s: seq<Byte>)
    requires |ToByteArray(value)| <= typeLength
    requires |s| == typeLength
    requires forall p :: 0 <= p < typeLength - |ToByteArray(value)| ==> s[p] == SignFill(value < 0)
    requires forall p :: typeLength - |ToByteArray(value)| <= p < typeLength ==>
               s[p] == ToByteArray(value)[p - (typeLength - |ToByteArray(value)|)]
    ensures Padded(typeLength, value) == Some(s)
  {
    var bytes := ToByteArray(value);
    var fill := SignBytes(typeLength - |bytes|, value < 0);
    assert s == fill + bytes;
  }

  /**
   * `paddingBigInteger`: a zeroed array of the column's length, filled with 0xFF for a
   * negative value, then the value's bytes copied right-aligned by two indices walking
   * down; the index into the result going negative is an `ArrayIndexOutOfBoundsException`.
   */
  method PaddingBigInteger(typeLength: nat, value: int) returns (r: Option<array<Byte>>)
    ensures r.None? <==> |ToByteArray(value)| > typeLength
    ensures r.Some? ==> fresh(r.value) && Padded(typeLength, value) == Some(r.value[..])
  {
    var result := new Byte[typeLength](_ => 0);
    var fill := SignFill(value < 0);
    if value < 0 {
      for k := 0 to typeLength
        invariant forall p :: 0 <= p < k ==> result[p] == 0xFF
      {
        result[k] := 0xFF;
      }
    }
    var bytes := ToByteArray(value);
    var i := |bytes| - 1;
    var j := typeLength - 1;
    while i >= 0
      invariant -1 <= i < |bytes|
      invariant j == i + typeLength - |bytes|
      invariant forall p :: 0 <= p < typeLength && p > j ==> result[p] == bytes[p - (typeLength - |bytes|)]
      invariant forall p :: 0 <= p < typeLength && p <= j ==> result[p] == fill
    {
      if j < 0 {
        return None;
      }
      result[j] := bytes[i];
      i, j := i - 1, j - 1;
    }
    PaddedFromLayout(typeLength, value, result[..]);
    return Some(result);
  }

  // ---------------------------------------------------------------------------
  // write
  // ---------------------------------------------------------------------------

  /** `(int)` applied to a `long`: the low 32 bits read as a signed number. */
  function ToInt32(v: int): (r: int)
    ensures -TwoTo31 <= r < TwoTo31
    ensures (r - v) % TwoTo32 == 0
  {
    (v + TwoTo31) % TwoTo32 - TwoTo31
  }

  /** The narrowing cast loses nothing on a value of at most nine decimal digits. */
  lemma ToInt32Lossless(v: int)
    requires -TwoTo31 <= v < TwoTo31
    ensures ToInt32(v) == v
  {
    assert 0 <= v + TwoTo31 < TwoTo32;
  }

  /** A value handed to the Parquet values writer (and to the column statistics). */
  datatype WrittenValue = IntValue(i: int) | LongValue(l: int) | BinaryValue(bytes: seq<Byte>)

  datatype WriteError = ArrayIndexOutOfBounds

  /** The value written for one non-null position, or `None` when padding fails. */
  function EncodeValue(precision: nat, typeLength: nat, v: int): Option<WrittenValue>
  {
    if precision <= 9 then Some(IntValue(ToInt32(v)))
    else if precision <= MaxShortPrecision then Some(LongValue(v))
    else
      match Padded(typeLength, v)
      case None => None
      case Some(bytes) => Some(BinaryValue(bytes))
  }

  /** What `write` produces for a block: the values written, and whether it ended normally. */
  datatype Encoding = Encoding(values: seq<WrittenValue>, outcome: Outcome<WriteError>)

  /** The values written for a block, position by position, up to the first failure. */
  function EncodeBlock(precision: nat, typeLength: nat, block: seq<Option<int>>): (r: Encoding)
    ensures |r.values| <= |block|
    ensures precision <= MaxShortPrecision ==> r.outcome.Pass?
  {
    if block == [] then Encoding([], Pass)
    else
      var before := EncodeBlock(precision, typeLength, block[..|block| - 1]);
      if before.outcome.Fail? then before
      else
        match block[|block| - 1]
        case None => before
        case Some(v) =>
          match EncodeValue(precision, typeLength, v)
          case None => Encoding(before.values, Fail(ArrayIndexOutOfBounds))
          case Some(w) => Encoding(before.values + [w], Pass)
  }

  /** One more position of the block: nothing for a null, else its value or the padding failure. */
  lemma EncodeBlockStep(precision: nat, typeLength: nat, block: seq<Option<int>>, i: nat)
    requires i < |block|
    requires EncodeBlock(precision, typeLength, block[..i]).outcome.Pass?
    ensures block[i].None? ==> EncodeBlock(precision, typeLength, block[..i + 1]) == EncodeBlock(precision, typeLength, block[..i])
    ensures block[i].Some? && EncodeValue(precision, typeLength, block[i].value).Some? ==>
              EncodeBlock(precision, typeLength, block[..i + 1])
              == Encoding(EncodeBlock(precision, typeLength, block[..i]).values + [EncodeValue(precision, typeLength, block[i].value).value], Pass)
    ensures block[i].Some? && EncodeValue(precision, typeLength, block[i].value).None? ==>
              EncodeBlock(precision, typeLength, block[..i + 1])
              == Encoding(EncodeBlock(precision, typeLength, block[..i]).values, Fail(ArrayIndexOutOfBounds))
  {
    assert block[..i + 1][..i] == block[..i];
  }

  /** The values at the non-null positions of a block, in position order. */
  function NonNullValues(block: seq<Option<int>>): seq<int>
  {
    if block == [] then []
    else
      var before := NonNullValues(block[..|block| - 1]);
      match block[|block| - 1]
      case None => before
      case Some(v) => before + [v]
  }

  /**
   * A block is written whole exactly when every non-null value encodes; then one value is
   * written per non-null position, in position order, and nothing for a null.
   */
  lemma {:induction false} EncodeBlockNonNull(precision: nat, typeLength: nat, block: seq<Option<int>>)
    ensures EncodeBlock(precision, typeLength, block).outcome.Pass?
            <==> forall k :: 0 <= k < |NonNullValues(block)| ==> EncodeValue(precision, typeLength, NonNullValues(block)[k]).Some?
    ensures EncodeBlock(precision, typeLength, block).outcome.Pass? ==>
              var values := EncodeBlock(precision, typeLength, block).values;
              && |values| == |NonNullValues(block)|
              && forall k :: 0 <= k < |values| ==> EncodeValue(precision, typeLength, NonNullValues(block)[k]) == Some(values[k])
  {
    if block != [] {
      var prefix := block[..|block| - 1];
      EncodeBlockNonNull(precision, typeLength, prefix);
      var before := NonNullValues(prefix);
      match block[|block| - 1]
      case None =>
        assert NonNullValues(block) == before;
        assert EncodeBlock(precision, typeLength, block) == EncodeBlock(precision, typeLength, prefix);
      case Some(v) =>
        var all := before + [v];
        assert NonNullValues(block) == all;
        assert forall k :: 0 <= k < |before| ==> all[k] == before[k];
        if EncodeBlock(precision, typeLength, prefix).outcome.Fail? {
          var k :| 0 <= k < |before| && EncodeValue(precision, typeLength, before[k]).None?;
          assert all[k] == before[k];
        } else {
          assert all[|before|] == v;
        }
    }
  }

  /** The precision alone picks the physical type: INT32 up to 9 digits, INT64 up to 18, else fixed bytes. */
  lemma {:induction false} EncodingFollowsPrecision(precision: nat, typeLength: nat, block: seq<Option<int>>)
    ensures forall w :: w in EncodeBlock(precision, typeLength, block).values ==>
              && (precision <= 9 ==> w.IntValue?)
              && (9 < precision <= MaxShortPrecision ==> w.LongValue?)
              && (MaxShortPrecision < precision ==> w.BinaryValue? && |w.bytes| == typeLength)
  {
    if block != [] {
      EncodingFollowsPrecision(precision, typeLength, block[..|block| - 1]);
      match block[|block| - 1]
      case None =>
      case Some(v) =>
        if MaxShortPrecision < precision {
          PaddedSignExtends(typeLength, v);
        }
    }
  }

  /** Short decimals never fail; a long decimal fails only when its bytes exceed the column. */
  lemma {:induction false} EncodeBlockFailure(precision: nat, typeLength: nat, block: seq<Option<int>>)
    ensures EncodeBlock(precision, typeLength, block).outcome.Fail? ==>
              precision > MaxShortPrecision
              && exists i :: 0 <= i < |block| && block[i].Some? && |ToByteArray(block[i].value)| > typeLength
  {
    if block != [] {
      var prefix := block[..|block| - 1];
      EncodeBlockFailure(precision, typeLength, prefix);
      if EncodeBlock(precision, typeLength, prefix).outcome.Fail? {
        var i :| 0 <= i < |prefix| && prefix[i].Some? && |ToByteArray(prefix[i].value)| > typeLength;
        assert block[i] == prefix[i];
      }
    }
  }

  /** A block value fits the Java type the block stores: `long` for short decimals, `Int128` for long ones. */
  predicate FitsStorage(precision: nat, v: int)
  {
    if precision <= MaxShortPrecision then -TwoTo63 <= v < TwoTo63 else -TwoTo127 <= v < TwoTo127
  }

  /**
   * `DecimalValueWriter`: the values it hands to the Parquet values writer and those it
   * hands to the column statistics, for a decimal type and a fixed column length.
   */
  class DecimalValueWriter {
    const precision: nat
    const typeLength: nat
    var written: seq<WrittenValue>
    var statistics: seq<WrittenValue>

    /** The statistics have seen exactly the values that were written. */
    ghost predicate Valid()
      reads this
    {
      written == statistics
    }

    constructor (precision: nat, typeLength: nat)
      ensures Valid()
      ensures this.precision == precision && this.typeLength == typeLength
      ensures written == []
    {
      this.precision := precision;
      this.typeLength := typeLength;
      written := [];
      statistics := [];
    }

    /**
     * `write(Block)`: one loop per physical type; each non-null position is encoded and
     * passed to the values writer and to the statistics.
     */
    method Write(block: seq<Option<int>>) returns (outcome: Outcome<WriteError>)
      requires Valid()
      requires forall i :: 0 <= i < |block| && block[i].Some? ==> FitsStorage(precision, block[i].value)
      modifies this
      ensures Valid()
      ensures outcome == EncodeBlock(precision, typeLength, block).outcome
      ensures written == old(written) + EncodeBlock(precision, typeLength, block).values
    {
      if precision <= 9 {
        WriteInts(block);
        outcome := Pass;
      } else if precision <= MaxShortPrecision {
        WriteLongs(block);
        outcome := Pass;
      } else {
        outcome := WriteBinaries(block);
      }
    }

    /** The INT32 loop: each non-null value narrowed to an `int`. */
    method WriteInts(block: seq<Option<int>>)
      requires Valid() && precision <= 9
      modifies this
      ensures Valid()
      ensures EncodeBlock(precision, typeLength, block).outcome.Pass?
      ensures written == old(written) + EncodeBlock(precision, typeLength, block).values
    {
      for i := 0 to |block|
        invariant Valid()
        invariant EncodeBlock(precision, typeLength, block[..i]).outcome.Pass?
        invariant written == old(written) + EncodeBlock(precision, typeLength, block[..i]).values
      {
        EncodeBlockStep(precision, typeLength, block, i);
        if block[i].Some? {
          var value := ToInt32(block[i].value);
          written := written + [IntValue(value)];
          statistics := statistics + [IntValue(value)];
        }
      }
      assert block[..|block|] == block;
    }

    /** The INT64 loop: each non-null value written as a `long`. */
    method WriteLongs(block: seq<Option<int>>)
      requires Valid() && 9 < precision <= MaxShortPrecision
      modifies this
      ensures Valid()
      ensures EncodeBlock(precision, typeLength, block).outcome.Pass?
      ensures written == old(written) + EncodeBlock(precision, typeLength, block).values
    {
      for i := 0 to |block|
        invariant Valid()
        invariant EncodeBlock(precision, typeLength, block[..i]).outcome.Pass?
        invariant written == old(written) + EncodeBlock(precision, typeLength, block[..i]).values
      {
        EncodeBlockStep(precision, typeLength, block, i);
        if block[i].Some? {
          var value := block[i].value;
          written := written + [LongValue(value)];
          statistics := statistics + [LongValue(value)];
        }
      }
      assert block[..|block|] == block;
    }

    /** The FIXED_LEN_BYTE_ARRAY loop: each non-null value padded to the column's length. */
    method WriteBinaries(block: seq<Option<int>>) returns (outcome: Outcome<WriteError>)
      requires Valid() && MaxShortPrecision < precision
      modifies this
      ensures Valid()
      ensures outcome == EncodeBlock(precision, typeLength, block).outcome
      ensures written == old(written) + EncodeBlock(precision, typeLength, block).values
    {
      for i := 0 to |block|
        invariant Valid()
        invariant EncodeBlock(precision, typeLength, block[..i]).outcome.Pass?
        invariant written == old(written) + EncodeBlock(precision, typeLength, block[..i]).values
      {
        EncodeBlockStep(precision, typeLength, block, i);
        if block[i].Some? {
          var binary := PaddingBigInteger(typeLength, block[i].value);
          if binary.None? {
            EncodeBlockStopsAtFailure(precision, typeLength, block, i + 1);
            return Fail(ArrayIndexOutOfBounds);
          }
          var bytes := binary.value[..];
          written := written + [BinaryValue(bytes)];
          statistics := statistics + [BinaryValue(bytes)];
        }
      }
      assert block[..|block|] == block;
      return Pass;
    }
  }

  /** Once a prefix of the block fails, the whole block fails with the same values written. */
  lemma {:induction false} EncodeBlockStopsAtFailure(precision: nat, typeLength: nat, block: seq<Option<int>>, i: nat)
    requires i <= |block|
    requires EncodeBlock(precision, typeLength, block[..i]).outcome.Fail?
    ensures EncodeBlock(precision, typeLength, block) == EncodeBlock(precision, typeLength, block[..i])
    decreases |block| - i
  {
    if i < |block| {
      assert block[..i + 1][..i] == block[..i];
      EncodeBlockStopsAtFailure(precision, typeLength, block, i + 1);
    } else {
      assert block[..i] == block;
    }
  }
}
