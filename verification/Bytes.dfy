/** Little-endian byte strings: the bits they hold and the arithmetic done on them. */
module Bytes {
  import opened BitVectors

  type Byte = b: int | 0 <= b < 256

  /** Bit `bit` of a byte string; bits past its end read as zero. */
  function GetBit(bytes: seq<Byte>, bit: nat): bool {
    bit / 8 < |bytes| && FromInt(bytes[bit / 8], 8)[bit % 8]
  }

  /** The first `width` bits of a byte string. */
  function Decoded(bytes: seq<Byte>, width: nat): (x: Bv)
    ensures |x| == width
  {
    seq(width, i requires 0 <= i => GetBit(bytes, i))
  }

  function BytesFor(width: nat): nat { (width + 7) / 8 }

  /** Exactly the bytes a width needs, with the unused high bits of the last one clear. */
  predicate Normalized(bytes: seq<Byte>, width: nat) {
    |bytes| == BytesFor(width) && forall i :: width <= i < 8 * |bytes| ==> !GetBit(bytes, i)
  }

  /** The number a byte string stands for. */
  function BytesVal(bytes: seq<Byte>): (v: int)
    ensures v >= 0
  {
    if bytes == [] then 0 else bytes[0] + 256 * BytesVal(bytes[1..])
  }

  // ------------------------------------------------------------- bits and numbers

  lemma {:induction false} Pow2Of8()
    ensures Pow2(8) == 256
  {
    assert Pow2(4) == 16;
    Pow2Add(4, 4);
  }

  lemma {:induction false} HeadBits(bytes: seq<Byte>)
    requires bytes != []
    ensures Decoded(bytes, 8 * |bytes|) == FromInt(bytes[0], 8) + Decoded(bytes[1..], 8 * (|bytes| - 1))
  {
    hide FromInt;
    var all, head, tail := Decoded(bytes, 8 * |bytes|), FromInt(bytes[0], 8), Decoded(bytes[1..], 8 * (|bytes| - 1));
    forall i | 0 <= i < 8 * |bytes| ensures all[i] == (head + tail)[i] {
      if i >= 8 { assert (i - 8) / 8 == i / 8 - 1 && (i - 8) % 8 == i % 8; }
    }
  }

  lemma {:induction false} AllBitsVal(bytes: seq<Byte>)
    ensures Val(Decoded(bytes, 8 * |bytes|)) == BytesVal(bytes)
    ensures BytesVal(bytes) < Pow2(8 * |bytes|)
  {
    if bytes == [] {
      assert Decoded(bytes, 0) == [];
    } else {
      HeadBits(bytes);
      AllBitsVal(bytes[1..]);
      hide Val, FromInt, Pow2;
      ValConcat(FromInt(bytes[0], 8), Decoded(bytes[1..], 8 * (|bytes| - 1)));
      Pow2Of8();
      ValFromInt(bytes[0], 8);
    }
  }

  /** The first `width` bits are the low bits of the number. */
  lemma {:induction false} DecodedIsLowBits(bytes: seq<Byte>, width: nat)
    requires width <= 8 * |bytes|
    ensures Decoded(bytes, width) == FromInt(BytesVal(bytes), width)
  {
    hide Val, FromInt, BytesVal, GetBit;
    var n := 8 * |bytes|;
    AllBitsVal(bytes);
    FromIntVal(Decoded(bytes, n));
    TruncateFromInt(BytesVal(bytes), width, n);
    assert Decoded(bytes, width) == Decoded(bytes, n)[..width];
  }

  lemma {:induction false} BytesForBounds(width: nat)
    ensures width <= 8 * BytesFor(width) < width + 8
  {}

  /** A normalised string stands for the number of its first `width` bits. */
  lemma {:induction false} NormalizedVal(bytes: seq<Byte>, width: nat)
    requires Normalized(bytes, width)
    ensures Val(Decoded(bytes, width)) == BytesVal(bytes)
  {
    BytesForBounds(width);
    AllBitsVal(bytes);
    var n := 8 * |bytes|;
    hide Val, BytesVal, GetBit;
    assert Decoded(bytes, n) == Decoded(bytes, width) + Zeros(n - width);
    ValConcat(Decoded(bytes, width), Zeros(n - width));
    ValZeros(n - width);
  }

  /** Equal bits mean equal normalised strings. */
  lemma {:induction false} DecodedInjective(a: seq<Byte>, b: seq<Byte>, width: nat)
    requires Normalized(a, width) && Normalized(b, width) && Decoded(a, width) == Decoded(b, width)
    ensures a == b
  {
    NormalizedVal(a, width);
    NormalizedVal(b, width);
    BytesValInjective(a, b);
  }

  lemma {:induction false} BytesValInjective(a: seq<Byte>, b: seq<Byte>)
    requires |a| == |b| && BytesVal(a) == BytesVal(b)
    ensures a == b
  {
    if a != [] {
      assert a[0] == BytesVal(a) % 256 && b[0] == BytesVal(b) % 256;
      BytesValInjective(a[1..], b[1..]);
      assert a == [a[0]] + a[1..] && b == [b[0]] + b[1..];
    }
  }

  // ------------------------------------------------------------------ single bits

  /** `byte | (1 << k)`. */
  function OrBit(b: Byte, k: nat): Byte
    requires k < 8
  {
    Pow2Of8();
    Val(FromInt(b, 8)[k := true])
  }

  function SetBit(bytes: seq<Byte>, bit: nat): (r: seq<Byte>)
    ensures |r| == |bytes|
  {
    if bit / 8 < |bytes| then bytes[bit / 8 := OrBit(bytes[bit / 8], bit % 8)] else bytes
  }

  lemma {:induction false} SetBitSets(bytes: seq<Byte>, bit: nat, j: nat)
    ensures GetBit(SetBit(bytes, bit), j) == (GetBit(bytes, j) || (j == bit && bit / 8 < |bytes|))
  {
    if bit / 8 < |bytes| && j / 8 == bit / 8 {
      FromIntVal(FromInt(bytes[bit / 8], 8)[bit % 8 := true]);
      assert j == 8 * (j / 8) + j % 8 && bit == 8 * (bit / 8) + bit % 8;
    }
  }

  /** `byte & ((1 << k) - 1)`. */
  function MaskByte(b: Byte, k: nat): Byte
    requires k < 8
  {
    LowBitsOfByte(b, k, 0);
    b % Pow2(k)
  }

  /** Clears the bits of the last byte past `width`. */
  function MaskUnusedHighBits(bytes: seq<Byte>, width: nat): (r: seq<Byte>)
    ensures |r| == |bytes|
  {
    if width % 8 == 0 || bytes == [] then bytes
    else bytes[|bytes| - 1 := MaskByte(bytes[|bytes| - 1], width % 8)]
  }

  lemma {:induction false} LowBitsOfByte(b: Byte, k: nat, j: nat)
    requires k < 8 && j < 8
    ensures 0 <= b % Pow2(k) < 256 && FromInt(b % Pow2(k), 8)[j] == (j < k && FromInt(b, 8)[j])
  {
    hide Val, Pow2, FromInt;
    var x := FromInt(b, 8);
    Pow2Of8();
    Pow2Monotone(k, 8);
    ValFromInt(b, 8);
    DropIsQuotient(x, k);
    Resized(x[..k], 8);
    assert Shifted(x[..k], 0, 8)[j] == (j < k && x[j]);
  }

  lemma {:induction false} MaskedBit(bytes: seq<Byte>, width: nat, j: nat)
    requires |bytes| == BytesFor(width)
    ensures GetBit(MaskUnusedHighBits(bytes, width), j) == (j < width && GetBit(bytes, j))
  {
    hide FromInt, Pow2;
    if width % 8 != 0 && j / 8 == |bytes| - 1 {
      LowBitsOfByte(bytes[|bytes| - 1], width % 8, j % 8);
    }
  }

  lemma {:induction false} MaskNormalizes(bytes: seq<Byte>, width: nat)
    requires |bytes| == BytesFor(width)
    ensures Normalized(MaskUnusedHighBits(bytes, width), width)
    ensures Decoded(MaskUnusedHighBits(bytes, width), width) == Decoded(bytes, width)
  {
    hide GetBit, MaskUnusedHighBits;
    forall j: nat ensures GetBit(MaskUnusedHighBits(bytes, width), j) == (j < width && GetBit(bytes, j)) {
      MaskedBit(bytes, width, j);
    }
  }

  /** Fills a zeroed string bit by bit: the shape of every shifting, slicing and joining loop. */
  method GatherBits(width: nat, pick: nat -> bool) returns (out: seq<Byte>)
    ensures Normalized(out, width) && Decoded(out, width) == seq(width, i requires 0 <= i => pick(i))
  {
    hide GetBit, SetBit;
    out := seq(BytesFor(width), _ => 0);
    forall j: nat ensures !GetBit(out, j) { ZeroBytes(BytesFor(width), j); }
    for bit := 0 to width
      invariant |out| == BytesFor(width)
      invariant forall j: nat :: GetBit(out, j) == (j < bit && pick(j))
    {
      if pick(bit) {
        forall j: nat ensures GetBit(SetBit(out, bit), j) == (GetBit(out, j) || (j == bit && bit / 8 < |out|)) {
          SetBitSets(out, bit, j);
        }
        out := SetBit(out, bit);
      }
    }
    assert Decoded(out, width) == seq(width, i requires 0 <= i => pick(i));
  }

  lemma {:induction false} ZeroBytes(n: nat, j: nat)
    ensures !GetBit(seq(n, _ => 0), j)
  {
    ValZeros(8);
  }
}
