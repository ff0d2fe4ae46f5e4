/** The byte-limb operations of constant folding and evaluation.  Each yields a normalised string
    whose bits are the bit-vector operation applied to the operands' bits. */
module ByteOps {
  import opened BitVectors
  import opened Bytes
  import opened CircuitLemmas
  import Circuits

  /** Two operands of `width` bits. */
  predicate Sized(a: seq<Byte>, width: nat) { |a| == BytesFor(width) }

  // ---------------------------------------------------------------- limbs as numbers

  lemma {:induction false} BytesValSnoc(s: seq<Byte>, b: Byte)
    ensures BytesVal(s + [b]) == BytesVal(s) + b * Pow2(8 * |s|)
  {
    if s == [] {
      assert [b][1..] == [];
    } else {
      assert (s + [b])[1..] == s[1..] + [b];
      BytesValSnoc(s[1..], b);
      Pow2Of8();
      Pow2Add(8, 8 * (|s| - 1));
      hide Pow2, BytesVal;
      Associate(b, 256, Pow2(8 * (|s| - 1)));
    }
  }

  lemma {:induction false} BytesValTake(s: seq<Byte>, i: nat)
    requires i < |s|
    ensures BytesVal(s[..i + 1]) == BytesVal(s[..i]) + s[i] * Pow2(8 * i)
  {
    assert s[..i + 1] == s[..i] + [s[i]];
    BytesValSnoc(s[..i], s[i]);
  }

  lemma {:induction false} BytesValUpdate(s: seq<Byte>, i: nat, b: Byte)
    requires i < |s|
    ensures BytesVal(s[i := b]) == BytesVal(s) + (b - s[i]) * Pow2(8 * i)
  {
    if i == 0 {
      assert s[0 := b][1..] == s[1..];
    } else {
      assert s[i := b][1..] == s[1..][i - 1 := b];
      BytesValUpdate(s[1..], i - 1, b);
      Pow2Of8();
      Pow2Add(8, 8 * (i - 1));
      hide Pow2, BytesVal;
      Associate(b - s[i], 256, Pow2(8 * (i - 1)));
    }
  }

  /** Masking a result that is exact up to a multiple of the limb capacity leaves its low bits. */
  lemma {:induction false} MaskedResult(raw: seq<Byte>, n: int, k: int, width: nat)
    requires Sized(raw, width) && BytesVal(raw) + k * Pow2(8 * |raw|) == n
    ensures Normalized(MaskUnusedHighBits(raw, width), width)
    ensures Decoded(MaskUnusedHighBits(raw, width), width) == FromInt(n, width)
  {
    hide FromInt, Pow2, BytesVal, GetBit;
    BytesForBounds(width);
    MaskNormalizes(raw, width);
    DecodedIsLowBits(raw, width);
    var extra := 8 * |raw| - width;
    Pow2Add(extra, width);
    Associate(k, Pow2(extra), Pow2(width));
    FromIntPeriod(BytesVal(raw), k * Pow2(extra), width);
  }

  // --------------------------------------------------------------------- arithmetic

  method AddBytes(a: seq<Byte>, b: seq<Byte>, width: nat) returns (out: seq<Byte>)
    requires Sized(a, width) && Sized(b, width)
    ensures Normalized(out, width) && Decoded(out, width) == BvAdd(Decoded(a, width), Decoded(b, width))
  {
    hide FromInt, Pow2, Val, BytesVal, GetBit;
    out := [];
    var carry := 0;
    assert BytesVal(out) == 0 && BytesVal(a[..0]) == 0 && BytesVal(b[..0]) == 0 by { EmptyVal(a, b); }
    for i := 0 to |a|
      invariant |out| == i && 0 <= carry <= 1
      invariant BytesVal(out) + carry * Pow2(8 * i) == BytesVal(a[..i]) + BytesVal(b[..i])
    {
      var sum := a[i] + b[i] + carry;  // fits 16 bits
      AddLimb(a, b, out, carry, i);
      out := out + [sum % 256];
      carry := sum / 256;
    }
    assert a[..|a|] == a && b[..|b|] == b;
    MaskedResult(out, BytesVal(a) + BytesVal(b), carry, width);
    BytesForBounds(width);
    DecodedIsLowBits(a, width);
    DecodedIsLowBits(b, width);
    FromIntAdd(BytesVal(a), BytesVal(b), width);
    out := MaskUnusedHighBits(out, width);
  }

  lemma {:induction false} EmptyVal(a: seq<Byte>, b: seq<Byte>)
    ensures BytesVal([]) == 0 && BytesVal(a[..0]) == 0 && BytesVal(b[..0]) == 0
  {}

  lemma {:induction false} AddLimb(a: seq<Byte>, b: seq<Byte>, out: seq<Byte>, carry: int, i: nat)
    requires i < |a| == |b| && |out| == i && 0 <= carry <= 1
    requires BytesVal(out) + carry * Pow2(8 * i) == BytesVal(a[..i]) + BytesVal(b[..i])
    ensures var sum := a[i] + b[i] + carry;
            && 0 <= sum < 65536 && 0 <= sum / 256 <= 1
            && BytesVal(out + [sum % 256]) + (sum / 256) * Pow2(8 * (i + 1)) ==
                 BytesVal(a[..i + 1]) + BytesVal(b[..i + 1])
  {
    hide Pow2, BytesVal;
    var x: int, y: int, p := a[i], b[i], Pow2(8 * i);
    var sum := x + y + carry;
    BytesValTake(a, i);
    BytesValTake(b, i);
    BytesValSnoc(out, sum % 256);
    NextLimb(i);
    LimbSplit(sum, p);
    Distribute(x, y, p);
    Distribute(x + y, carry, p);
  }

  lemma {:induction false} NextLimb(i: nat)
    ensures Pow2(8 * (i + 1)) == 256 * Pow2(8 * i)
  {
    Pow2Of8();
    Pow2Add(8, 8 * i);
  }

  lemma {:induction false} LimbSplit(s: int, p: int)
    ensures (s % 256) * p + (s / 256) * (256 * p) == s * p
  {
    Associate(s / 256, 256, p);
    Distribute(s % 256, 256 * (s / 256), p);
  }

  /** Complement and add one; the carry loop stops as soon as the carry dies out. */
  method NegBytes(bytes: seq<Byte>, width: nat) returns (out: seq<Byte>)
    requires Sized(bytes, width)
    ensures Normalized(out, width) && Decoded(out, width) == BvNeg(Decoded(bytes, width))
  {
    hide FromInt, Pow2, Val, BytesVal, GetBit;
    out := Complement(bytes);
    ghost var total := BytesVal(out) + 1;
    var carry, i := 1, 0;
    assert carry * Pow2(8 * i) == 1 by { assert Pow2(0) == 1 by { Pow2Add(0, 0); Pow2Zero(); } }
    while i < |bytes| && carry != 0
      invariant 0 <= i <= |bytes| == |out| && 0 <= carry <= 1
      invariant BytesVal(out) + carry * Pow2(8 * i) == total
    {
      var limb: int := out[i];
      var sum := limb + carry;
      BytesValUpdate(out, i, sum % 256);
      NextLimb(i);
      LimbSplit(sum, Pow2(8 * i));
      Distribute(sum % 256, -limb, Pow2(8 * i));
      Distribute(limb, carry, Pow2(8 * i));
      out := out[i := sum % 256];
      carry := sum / 256;
      i := i + 1;
    }
    ComplementVal(bytes);
    NegatedTotal(bytes, out, carry, i, total, width);
    out := MaskUnusedHighBits(out, width);
  }

  lemma {:induction false} Pow2Zero()
    ensures Pow2(0) == 1
  {}

  lemma {:induction false} NegatedTotal(bytes: seq<Byte>, out: seq<Byte>, carry: int, i: nat, total: int, width: nat)
    requires Sized(bytes, width) && |out| == |bytes| && i <= |bytes| && (carry == 0 || i == |bytes|)
    requires total == Pow2(8 * |bytes|) - BytesVal(bytes) && BytesVal(out) + carry * Pow2(8 * i) == total
    ensures Normalized(MaskUnusedHighBits(out, width), width)
    ensures Decoded(MaskUnusedHighBits(out, width), width) == BvNeg(Decoded(bytes, width))
  {
    hide FromInt, Pow2, Val, BytesVal, GetBit;
    var p := Pow2(8 * |bytes|);
    Distribute(carry, -1, p);
    assert carry == 0 ==> carry * Pow2(8 * i) == 0 && carry * p == 0;
    MaskedResult(out, -BytesVal(bytes), carry - 1, width);
    BytesForBounds(width);
    DecodedIsLowBits(bytes, width);
    FromIntNeg(BytesVal(bytes), width);
  }

  /** `!byte` for every byte. */
  function Complement(bytes: seq<Byte>): (r: seq<Byte>)
    ensures |r| == |bytes|
  {
    seq(|bytes|, i requires 0 <= i < |bytes| => 255 - bytes[i])
  }

  lemma {:induction false} ComplementVal(bytes: seq<Byte>)
    ensures BytesVal(Complement(bytes)) + 1 == Pow2(8 * |bytes|) - BytesVal(bytes)
  {
    if bytes != [] {
      assert Complement(bytes)[1..] == Complement(bytes[1..]);
      ComplementVal(bytes[1..]);
      NextLimb(|bytes| - 1);
    } else {
      Pow2Zero();
    }
  }

  method SubBytes(a: seq<Byte>, b: seq<Byte>, width: nat) returns (out: seq<Byte>)
    requires Sized(a, width) && Sized(b, width)
    ensures Normalized(out, width) && Decoded(out, width) == BvSub(Decoded(a, width), Decoded(b, width))
  {
    hide FromInt, Val, GetBit;
    var negB := NegBytes(b, width);
    out := AddBytes(a, negB, width);
    FromIntAdd(-Val(Decoded(b, width)), Val(Decoded(a, width)), width);
  }

  /** Schoolbook multiplication, keeping only the limbs of the result's width. */
  method MulBytes(a: seq<Byte>, b: seq<Byte>, width: nat) returns (out: seq<Byte>)
    requires Sized(a, width) && Sized(b, width)
    ensures Normalized(out, width) && Decoded(out, width) == BvMul(Decoded(a, width), Decoded(b, width))
  {
    hide FromInt, Pow2, Val, BytesVal, GetBit;
    out := seq(|a|, _ => 0);
    ghost var k := 0;  // multiples of the limb capacity dropped so far
    assert BytesVal(out) == 0 && BytesVal(a[..0]) == 0 by { EmptyVal(a, b); ZeroVal(|a|); }
    for i := 0 to |a|
      invariant |out| == |a|
      invariant BytesVal(out) + k * Pow2(8 * |a|) == BytesVal(a[..i]) * BytesVal(b)
    {
      ghost var dropped;
      BytesValTake(a, i);
      ghost var before := BytesVal(out);
      out, dropped := MulRow(a, b, out, i);
      MulRowTotal(BytesVal(a[..i]), a[i], Pow2(8 * i), BytesVal(b), before, k, Pow2(8 * |a|), dropped, BytesVal(out));
      k := k + dropped;
    }
    assert a[..|a|] == a;
    MaskedResult(out, BytesVal(a) * BytesVal(b), k, width);
    BytesForBounds(width);
    DecodedIsLowBits(a, width);
    DecodedIsLowBits(b, width);
    FromIntMul(BytesVal(a), BytesVal(b), width);
    out := MaskUnusedHighBits(out, width);
  }

  lemma {:induction false} ZeroVal(n: nat)
    ensures BytesVal(seq(n, _ => 0)) == 0
  {
    if n != 0 {
      assert seq(n, _ => 0)[1..] == seq(n - 1, _ => 0);
      ZeroVal(n - 1);
    }
  }

  lemma {:induction false} MulRowTotal(done: int, x: int, p: int, y: int, before: int, k: int, cap: int, dropped: int,
                                       after: int)
    requires before + k * cap == done * y && after + dropped * cap == before + x * p * y
    ensures after + (k + dropped) * cap == (done + x * p) * y
  {
    Distribute(k, dropped, cap);
    Distribute(done, x * p, y);
  }

  /** Adds `a[i] * b`, shifted by i limbs, to the accumulator.  No intermediate exceeds 16 bits. */
  method MulRow(a: seq<Byte>, b: seq<Byte>, acc: seq<Byte>, i: nat) returns (out: seq<Byte>, ghost dropped: int)
    requires i < |a| == |b| == |acc|
    ensures |out| == |a|
    ensures BytesVal(out) + dropped * Pow2(8 * |a|) == BytesVal(acc) + a[i] * Pow2(8 * i) * BytesVal(b)
  {
    hide Pow2, BytesVal;
    out := acc;
    var carry, j := 0, 0;
    assert BytesVal(b[..0]) == 0 by { EmptyVal(a, b); }
    while i + j < |out|
      invariant 0 <= j && i + j <= |a| == |out|
      invariant 0 <= carry <= 255
      invariant BytesVal(out) + carry * Pow2(8 * (i + j)) == BytesVal(acc) + a[i] * Pow2(8 * i) * BytesVal(b[..j])
    {
      var x: int, y: int := a[i], b[j];
      assert 0 <= x * y <= 65025 by { MulMonotone(x, 255, y); MulMonotone(0, x, y); }
      var product := out[i + j] + x * y + carry;
      assert 0 <= product <= 65535;
      MulLimb(a, b, acc, out, i, j, carry);
      out := out[i + j := product % 256];
      carry := product / 256;
      j := j + 1;
    }
    dropped := carry + a[i] * BytesVal(b[j..]);
    MulRowEnd(a, b, i, j, carry, BytesVal(out), BytesVal(acc));
  }

  lemma {:induction false} MulLimb(a: seq<Byte>, b: seq<Byte>, acc: seq<Byte>, out: seq<Byte>, i: nat, j: nat,
                                   carry: int)
    requires i + j < |a| == |b| == |out|
    requires BytesVal(out) + carry * Pow2(8 * (i + j)) == BytesVal(acc) + a[i] * Pow2(8 * i) * BytesVal(b[..j])
    ensures var product := out[i + j] + (a[i] as int) * (b[j] as int) + carry;
            BytesVal(out[i + j := product % 256]) + (product / 256) * Pow2(8 * (i + j + 1))
            == BytesVal(acc) + a[i] * Pow2(8 * i) * BytesVal(b[..j + 1])
  {
    hide Pow2, BytesVal;
    var p, q := Pow2(8 * (i + j)), a[i] * Pow2(8 * i);
    var x: int, y: int, limb: int := a[i], b[j], out[i + j];
    var xy := x * y;
    var product := limb + xy + carry;
    BytesValUpdate(out, i + j, product % 256);
    NextLimb(i + j);
    LimbSplit(product, p);
    Distribute(product % 256, -limb, p);
    Distribute(limb + xy, carry, p);
    Distribute(limb, xy, p);
    BytesValTake(b, j);
    Distribute(BytesVal(b[..j]), b[j] * Pow2(8 * j), q);
    Pow2Add(8 * i, 8 * j);
    Rearrange(a[i], Pow2(8 * i), b[j], Pow2(8 * j));
  }

  lemma {:induction false} Rearrange(x: int, p: int, y: int, r: int)
    ensures (x * p) * (y * r) == (x * y) * (p * r)
  {
    Associate(x * p, y, r);
    Associate(y, x * p, r);
    assert (x * p) * (y * r) == ((x * p) * y) * r;
    assert (x * p) * y == (x * y) * p by { Associate(x, p, y); Associate(x, y, p); assert p * y == y * p; }
    Associate(x * y, p, r);
  }

  /** The limbs of `b` beyond the width, and the last carry, only add multiples of the capacity. */
  lemma {:induction false} MulRowEnd(a: seq<Byte>, b: seq<Byte>, i: nat, j: nat, carry: int, out: int, acc: int)
    requires i < |a| == |b| && i + j == |a|
    requires out + carry * Pow2(8 * (i + j)) == acc + a[i] * Pow2(8 * i) * BytesVal(b[..j])
    ensures out + (carry + a[i] * BytesVal(b[j..])) * Pow2(8 * |a|) == acc + a[i] * Pow2(8 * i) * BytesVal(b)
  {
    hide Pow2, BytesVal;
    BytesValSplit(b, j);
    Pow2Add(8 * i, 8 * j);
    RowEndTotal(out, acc, carry, a[i], Pow2(8 * i), Pow2(8 * j), BytesVal(b[..j]), BytesVal(b[j..]));
  }

  lemma {:induction false} RowEndTotal(out: int, acc: int, carry: int, x: int, p: int, r: int, lo: int, hi: int)
    requires out + carry * (p * r) == acc + x * p * lo
    ensures out + (carry + x * hi) * (p * r) == acc + x * p * (lo + hi * r)
  {
    var cap, q, m, h := p * r, x * p, x * hi, hi * r;
    assert q * h == m * cap by { Rearrange(x, p, hi, r); }
    assert (carry + m) * cap == carry * cap + m * cap;
    assert q * (lo + h) == q * lo + q * h;
  }

  lemma {:induction false} BytesValSplit(s: seq<Byte>, j: nat)
    requires j <= |s|
    ensures BytesVal(s) == BytesVal(s[..j]) + BytesVal(s[j..]) * Pow2(8 * j)
    decreases |s| - j
  {
    if j == |s| {
      assert s[..j] == s && s[j..] == [];
    } else {
      BytesValSplit(s, j + 1);
      BytesValTake(s, j);
      NextLimb(j);
      assert s[j..][0] == s[j] && s[j..][1..] == s[j + 1..];
      assert BytesVal(s[j..]) == s[j] + 256 * BytesVal(s[j + 1..]);
      hide Pow2, BytesVal;
      Distribute(s[j], 256 * BytesVal(s[j + 1..]), Pow2(8 * j));
      Associate(BytesVal(s[j + 1..]), 256, Pow2(8 * j));
    }
  }

  // ------------------------------------------------------------------------ bitwise

  /** `x & y`, `x | y` or `x ^ y` on one byte. */
  function BitwiseByte(f: Circuits.Connective, x: Byte, y: Byte): Byte {
    Pow2Of8();
    Val(Circuits.BvConnect(f, FromInt(x, 8), FromInt(y, 8)))
  }

  function BitwiseBytes(f: Circuits.Connective, a: seq<Byte>, b: seq<Byte>): (r: seq<Byte>)
    ensures |r| == Min(|a|, |b|)
  {
    seq(Min(|a|, |b|), i requires 0 <= i < |a| && i < |b| => BitwiseByte(f, a[i], b[i]))
  }

  lemma {:induction false} BitwiseBit(f: Circuits.Connective, a: seq<Byte>, b: seq<Byte>, i: nat)
    requires |a| == |b|
    ensures GetBit(BitwiseBytes(f, a, b), i) == Circuits.Connect(f, GetBit(a, i), GetBit(b, i))
  {
    hide FromInt, Val;
    if i / 8 < |a| {
      FromIntVal(Circuits.BvConnect(f, FromInt(a[i / 8], 8), FromInt(b[i / 8], 8)));
    }
  }

  /** Byte-wise connectives are bit-wise connectives, and need no masking. */
  lemma {:induction false} BitwiseDecoded(f: Circuits.Connective, a: seq<Byte>, b: seq<Byte>, width: nat)
    requires Normalized(a, width) && Normalized(b, width)
    ensures Normalized(BitwiseBytes(f, a, b), width)
    ensures Decoded(BitwiseBytes(f, a, b), width) == Circuits.BvConnect(f, Decoded(a, width), Decoded(b, width))
  {
    hide GetBit, BitwiseBytes;
    forall i: nat ensures GetBit(BitwiseBytes(f, a, b), i) == Circuits.Connect(f, GetBit(a, i), GetBit(b, i)) {
      BitwiseBit(f, a, b, i);
    }
  }

  lemma {:induction false} ComplementBit(bytes: seq<Byte>, i: nat)
    requires i / 8 < |bytes|
    ensures GetBit(Complement(bytes), i) == !GetBit(bytes, i)
  {
    var b := bytes[i / 8];
    Pow2Of8();
    ValFromInt(b, 8);
    ValNot(FromInt(b, 8));
    FromIntVal(BvNot(FromInt(b, 8)));
  }

  lemma {:induction false} ComplementDecoded(bytes: seq<Byte>, width: nat)
    requires Normalized(bytes, width)
    ensures Normalized(MaskUnusedHighBits(Complement(bytes), width), width)
    ensures Decoded(MaskUnusedHighBits(Complement(bytes), width), width) == BvNot(Decoded(bytes, width))
  {
    hide GetBit, Complement, MaskUnusedHighBits;
    MaskNormalizes(Complement(bytes), width);
    BytesForBounds(width);
    forall i | 0 <= i < width ensures GetBit(Complement(bytes), i) == !GetBit(bytes, i) {
      ComplementBit(bytes, i);
    }
  }

  /** Setting a bit inside the width. */
  lemma {:induction false} SetBitDecoded(bytes: seq<Byte>, bit: nat, width: nat)
    requires Normalized(bytes, width) && bit < width
    ensures Normalized(SetBit(bytes, bit), width)
    ensures Decoded(SetBit(bytes, bit), width) == Decoded(bytes, width)[bit := true]
  {
    hide GetBit, SetBit;
    BytesForBounds(width);
    forall j: nat ensures GetBit(SetBit(bytes, bit), j) == (GetBit(bytes, j) || j == bit) {
      SetBitSets(bytes, bit, j);
    }
  }

  // ------------------------------------------------------------------- moving bits

  method ExtractBytes(bytes: seq<Byte>, low: nat, width: nat) returns (out: seq<Byte>)
    ensures Normalized(out, width) && Decoded(out, width) == seq(width, i requires 0 <= i => GetBit(bytes, low + i))
    ensures forall w :: width > 0 && low + width <= w ==>
              Decoded(out, width) == BvExtract(Decoded(bytes, w), low + width - 1, low)
  {
    hide GetBit;
    out := GatherBits(width, (i: nat) => GetBit(bytes, low + i));
  }

  method ConcatBytes(high: seq<Byte>, highWidth: nat, low: seq<Byte>, lowWidth: nat) returns (out: seq<Byte>)
    ensures Normalized(out, highWidth + lowWidth)
    ensures Decoded(out, highWidth + lowWidth) == BvConcat(Decoded(high, highWidth), Decoded(low, lowWidth))
  {
    hide GetBit;
    out := GatherBits(highWidth + lowWidth,
                      (i: nat) => if i < lowWidth then GetBit(low, i) else GetBit(high, i - lowWidth));
  }

  method SextBytes(bytes: seq<Byte>, width: nat, extra: nat) returns (out: seq<Byte>)
    requires width > 0
    ensures Normalized(out, width + extra) && Decoded(out, width + extra) == BvSignExtend(Decoded(bytes, width), extra)
  {
    hide GetBit;
    out := GatherBits(width + extra, (i: nat) => GetBit(bytes, if i < width then i else width - 1));
    assert Decoded(out, width + extra) == BvSignExtend(Decoded(bytes, width), extra);
  }

  /** `Vec::resize` with zeros. */
  function Resize(bytes: seq<Byte>, n: nat): (r: seq<Byte>)
    ensures |r| == n
  {
    if n <= |bytes| then bytes[..n] else bytes + seq(n - |bytes|, _ => 0)
  }

  /** Zero extension resizes and masks. */
  lemma {:induction false} ResizeExtends(bytes: seq<Byte>, width: nat, extra: nat)
    requires Normalized(bytes, width)
    ensures var wide := Resize(bytes, BytesFor(width + extra));
            var out := MaskUnusedHighBits(wide, width + extra);
            && Normalized(out, width + extra)
            && Decoded(out, width + extra) == Decoded(wide, width + extra) == BvZeroExtend(Decoded(bytes, width), extra)
  {
    hide FromInt, MaskUnusedHighBits;
    var wide := Resize(bytes, BytesFor(width + extra));
    MaskNormalizes(wide, width + extra);
    BytesForBounds(width);
    forall i | 0 <= i < width + extra ensures GetBit(wide, i) == (i < width && GetBit(bytes, i)) {
      assert Normalized(bytes, width);
      if i / 8 < |bytes| {
        assert GetBit(wide, i) == GetBit(bytes, i);
        assert i < 8 * |bytes|;
      } else {
        ZeroBits(i % 8);
      }
    }
  }

  lemma {:induction false} ZeroBits(k: nat)
    requires k < 8
    ensures !FromInt(0, 8)[k]
  {
    ValZeros(8);
  }

  method RepeatBytes(bytes: seq<Byte>, width: nat, count: nat) returns (out: seq<Byte>)
    requires width > 0
    ensures Normalized(out, width * count) && Decoded(out, width * count) == BvRepeat(Decoded(bytes, width), count)
  {
    hide GetBit;
    out := GatherBits(width * count, (i: nat) => GetBit(bytes, i % width));
    RepeatedBits(Decoded(bytes, width), count);
  }

  lemma {:induction false} RepeatedBits(x: Bv, count: nat)
    requires x != []
    ensures |BvRepeat(x, count)| == |x| * count
    ensures forall i :: 0 <= i < |x| * count ==> BvRepeat(x, count)[i] == x[i % |x|]
  {
    if count != 0 {
      RepeatedBits(x, count - 1);
      var done := |x| * (count - 1);
      assert |x| * count == done + |x| by { Distribute(count, -1, |x|); }
      forall i | 0 <= i < |x| * count ensures BvRepeat(x, count)[i] == x[i % |x|] {
        if i >= done {
          DivUnique(i, |x|, count - 1, i - done);
        }
      }
    }
  }

  method RotateLeftBytes(bytes: seq<Byte>, width: nat, amount: nat) returns (out: seq<Byte>)
    requires amount < width
    ensures Normalized(out, width) && Decoded(out, width) == BvRotateLeft(Decoded(bytes, width), amount)
  {
    hide GetBit, Wrapped, BvRotateLeft;
    out := GatherBits(width, (i: nat) => GetBit(bytes, Wrapped(i + (width - amount), width)));
    var x := Decoded(bytes, width);
    SmallRotation(x, amount);
    forall i | 0 <= i < width ensures Decoded(out, width)[i] == (x[width - amount..] + x[..width - amount])[i] {
      RotatedAt(x, width - amount, i);
    }
  }

  method RotateRightBytes(bytes: seq<Byte>, width: nat, amount: nat) returns (out: seq<Byte>)
    requires amount < width
    ensures Normalized(out, width) && Decoded(out, width) == BvRotateRight(Decoded(bytes, width), amount)
  {
    hide GetBit, Wrapped, BvRotateRight;
    out := GatherBits(width, (i: nat) => GetBit(bytes, Wrapped(i + amount, width)));
    var x := Decoded(bytes, width);
    SmallRotation(x, amount);
    forall i | 0 <= i < width ensures Decoded(out, width)[i] == (x[amount..] + x[..amount])[i] {
      RotatedAt(x, amount, i);
    }
  }

  lemma {:induction false} SmallRotation(x: Bv, amount: nat)
    requires amount < |x|
    ensures BvRotateLeft(x, amount) == x[|x| - amount..] + x[..|x| - amount]
    ensures BvRotateRight(x, amount) == x[amount..] + x[..amount]
  {
    DivUnique(amount, |x|, 0, amount);
  }

  function Wrapped(i: nat, n: nat): nat { if n == 0 then 0 else i % n }

  lemma {:induction false} RotatedAt(x: Bv, k: nat, i: nat)
    requires k <= |x| && i < |x|
    ensures Wrapped(i + k, |x|) < |x| && (x[k..] + x[..k])[i] == x[Wrapped(i + k, |x|)]
  {
    Circuits.WrapIndex(i + k, |x|);
  }

  method ShlBytes(bytes: seq<Byte>, width: nat, amount: nat) returns (out: seq<Byte>)
    ensures Normalized(out, width) && Decoded(out, width) == Shifted(Decoded(bytes, width), amount, width)
  {
    hide GetBit;
    out := GatherBits(width, (i: nat) => amount <= i && GetBit(bytes, i - amount));
    assert Decoded(out, width) == Shifted(Decoded(bytes, width), amount, width);
  }

  method LShrBytes(bytes: seq<Byte>, width: nat, amount: nat) returns (out: seq<Byte>)
    ensures Normalized(out, width) && Decoded(out, width) == ShiftedRight(Decoded(bytes, width), amount, false)
  {
    hide GetBit;
    out := GatherBits(width, (i: nat) => i + amount < width && GetBit(bytes, i + amount));
    assert Decoded(out, width) == ShiftedRight(Decoded(bytes, width), amount, false);
  }

  method AShrBytes(bytes: seq<Byte>, width: nat, amount: nat) returns (out: seq<Byte>)
    requires width > 0
    ensures var x := Decoded(bytes, width);
            Normalized(out, width) && Decoded(out, width) == ShiftedRight(x, amount, Msb(x))
  {
    hide GetBit;
    out := GatherBits(width,
                      (i: nat) => if i + amount < width then GetBit(bytes, i + amount) else GetBit(bytes, width - 1));
  }

  // ------------------------------------------------------------ reading and comparing

  /** The number, saturated at `bound`: a running sum over the set bits that gives up at the bound. */
  method BytesToBoundedUsize(bytes: seq<Byte>, bound: nat) returns (value: nat)
    requires bound <= Circuits.USIZE_MAX
    ensures value == if BytesVal(bytes) < bound then BytesVal(bytes) else bound
  {
    hide Pow2, Val, FromInt, BytesVal;
    var x := Decoded(bytes, 8 * |bytes|);
    AllBitsVal(bytes);
    value := 0;
    assert x[..0] == [] && Val([]) == 0 by { ValZeros(0); }
    for bit := 0 to 8 * |bytes|
      invariant value == Val(x[..bit]) <= bound
      invariant bit > 0 ==> value < bound || value == 0
    {
      TakeSnoc(x, bit);
      assert x[bit] == GetBit(bytes, bit);
      if !GetBit(bytes, bit) {
        continue;
      }
      PrefixBelow(x, bit + 1);
      if bit >= 64 {
        Pow2Monotone(64, bit);
        Circuits.Pow2At64();
        return bound;
      }
      value := value + Pow2(bit);
      if value >= bound {
        return bound;
      }
    }
    TakeAll(x);
    if value >= bound { return bound; }
  }

  lemma {:induction false} PrefixBelow(x: Bv, n: nat)
    requires n <= |x|
    ensures Val(x[..n]) <= Val(x)
  {
    assert x == x[..n] + x[n..];
    hide Val, Pow2;
    ValConcat(x[..n], x[n..]);
    MulMonotone(0, Val(x[n..]), Pow2(n));
  }

  datatype Ordering = Less | Equal | Greater

  /** Compares from the last byte down. */
  method CmpUnsignedBytes(a: seq<Byte>, b: seq<Byte>) returns (r: Ordering)
    requires |a| == |b|
    ensures r == if BytesVal(a) < BytesVal(b) then Less else if BytesVal(a) == BytesVal(b) then Equal else Greater
  {
    hide Pow2, BytesVal;
    var i := |a|;
    while i > 0
      invariant 0 <= i <= |a|
      invariant a[i..] == b[i..]
    {
      i := i - 1;
      if a[i] != b[i] {
        HighestDiffers(a, b, i);
        return if a[i] < b[i] then Less else Greater;
      }
      assert a[i..] == [a[i]] + a[i + 1..] && b[i..] == [b[i]] + b[i + 1..];
    }
    assert a == a[0..] && b == b[0..];
    r := Equal;
  }

  lemma {:induction false} HighestDiffers(a: seq<Byte>, b: seq<Byte>, i: nat)
    requires i < |a| == |b| && a[i] != b[i] && a[i + 1..] == b[i + 1..]
    ensures a[i] < b[i] <==> BytesVal(a) < BytesVal(b)
    ensures BytesVal(a) != BytesVal(b)
  {
    hide Pow2, BytesVal;
    BytesValSplit(a, i + 1);
    BytesValSplit(b, i + 1);
    BytesValTake(a, i);
    BytesValTake(b, i);
    AllBitsVal(a[..i]);
    AllBitsVal(b[..i]);
    TopLimb(BytesVal(a[..i]), BytesVal(b[..i]), a[i], b[i], Pow2(8 * i));
  }

  lemma {:induction false} TopLimb(lowA: int, lowB: int, x: int, y: int, p: int)
    requires 0 <= lowA < p && 0 <= lowB < p && x != y
    ensures x < y <==> lowA + x * p < lowB + y * p
    ensures lowA + x * p != lowB + y * p
  {
    Magnitude(x - y, p);
    assert (x - y) * p == x * p - y * p;
  }

  /** The order of normalised strings is the order of the vectors. */
  lemma {:induction false} ComparedVectors(a: seq<Byte>, b: seq<Byte>, width: nat)
    requires Normalized(a, width) && Normalized(b, width)
    ensures BytesVal(a) < BytesVal(b) <==> BvUlt(Decoded(a, width), Decoded(b, width))
    ensures BytesVal(a) == BytesVal(b) <==> a == b
    ensures a == b <==> Decoded(a, width) == Decoded(b, width)
  {
    NormalizedVal(a, width);
    NormalizedVal(b, width);
    if BytesVal(a) == BytesVal(b) {
      BytesValInjective(a, b);
    }
    if Decoded(a, width) == Decoded(b, width) {
      DecodedInjective(a, b, width);
    }
  }

  method SignedLessThan(a: seq<Byte>, b: seq<Byte>, width: nat) returns (r: bool)
    requires width > 0 && Normalized(a, width) && Normalized(b, width)
    ensures r <==> BvSlt(Decoded(a, width), Decoded(b, width))
  {
    hide Val, FromInt, BvSlt;
    var signA, signB := GetBit(a, width - 1), GetBit(b, width - 1);
    SignedLess(Decoded(a, width), Decoded(b, width));
    if signA != signB {
      r := signA;
    } else {
      var order := CmpUnsignedBytes(a, b);
      ComparedVectors(a, b, width);
      r := order == Less;
    }
  }

  predicate HighBitsZero(bytes: seq<Byte>, from: nat, width: nat) {
    forall bit :: from <= bit < width ==> !GetBit(bytes, bit)
  }

  function ConstantBytes(width: nat, ones: bool): (r: seq<Byte>)
    ensures |r| == BytesFor(width)
  {
    MaskUnusedHighBits(seq(BytesFor(width), _ => if ones then 255 else 0), width)
  }

  lemma {:induction false} ConstantBits(width: nat, ones: bool)
    ensures Normalized(ConstantBytes(width, ones), width)
    ensures Decoded(ConstantBytes(width, ones), width) == if ones then Ones(width) else Zeros(width)
  {
    hide MaskUnusedHighBits;
    var raw: seq<Byte> := seq(BytesFor(width), _ => if ones then 255 else 0);
    MaskNormalizes(raw, width);
    BytesForBounds(width);
    forall i | 0 <= i < width ensures GetBit(raw, i) == ones {
      if ones { OneBits(i % 8); } else { ZeroBits(i % 8); }
    }
  }

  lemma {:induction false} OneBits(k: nat)
    requires k < 8
    ensures FromInt(255, 8)[k]
  {
    Pow2Of8();
    ValOnes(8);
    FromIntVal(Ones(8));
  }

  predicate AllZero(bytes: seq<Byte>) { forall i :: 0 <= i < |bytes| ==> bytes[i] == 0 }

  lemma {:induction false} ZeroBytesVal(bytes: seq<Byte>, width: nat)
    requires Normalized(bytes, width)
    ensures AllZero(bytes) <==> Val(Decoded(bytes, width)) == 0
  {
    NormalizedVal(bytes, width);
    ZeroVal(|bytes|);
    if AllZero(bytes) {
      assert bytes == seq(|bytes|, _ => 0);
    } else if BytesVal(bytes) == 0 {
      BytesValInjective(bytes, seq(|bytes|, _ => 0));
    }
  }
}
