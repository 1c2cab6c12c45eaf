/**
 * Bit fields of byte buffers (lsub/lsub.h:308-378): the extraction loop, the operators it uses on
 * unsigned numbers, and the arithmetic it amounts to.
 */
module Bits {

  type Byte = x: nat | x < 256

  function Pow2(n: nat): (p: nat)
    ensures p > 0
  {
    if n == 0 then 1 else 2 * Pow2(n - 1)
  }

  // ----- the operators of the source on unsigned values, bit by bit

  function Or(a: nat, b: nat): nat {
    if a == 0 && b == 0 then 0
    else 2 * Or(a / 2, b / 2) + if a % 2 == 1 || b % 2 == 1 then 1 else 0
  }

  function And(a: nat, b: nat): nat {
    if a == 0 || b == 0 then 0
    else 2 * And(a / 2, b / 2) + if a % 2 == 1 && b % 2 == 1 then 1 else 0
  }

  function Shr(x: nat, n: nat): nat {
    DivNonnegative(x, Pow2(n));
    x / Pow2(n)
  }

  lemma DivNonnegative(x: nat, d: nat)
    requires d > 0
    ensures x / d >= 0
  {
  }

  /** A left shift of a 64-bit value loses what leaves the top. */
  function Shl(x: nat, n: nat): nat {
    x * Pow2(n) % Pow2(64)
  }

  // ----- powers of two

  lemma {:induction false} Pow2Adds(a: nat, b: nat)
    ensures Pow2(a + b) == Pow2(a) * Pow2(b)
  {
    if a > 0 {
      Pow2Adds(a - 1, b);
      var p, q, r := Pow2(a - 1), Pow2(b), Pow2(a - 1 + b);
      assert Pow2(a) == 2 * p && Pow2(a + b) == 2 * r;
      hide Pow2;
      MulGroups(2, p, q);
    }
  }

  lemma {:induction false} Pow2Grows(a: nat, b: nat)
    requires a <= b
    ensures Pow2(a) <= Pow2(b)
  {
    if a < b {
      Pow2Grows(a, b - 1);
    }
  }

  lemma Pow2Byte()
    ensures Pow2(8) == 256
  {
    assert Pow2(4) == 16;
  }

  // ----- fields of a number

  /** Bits `s` to `s + w` of a number. */
  function Field(x: nat, s: nat, w: nat): nat {
    x / Pow2(s) % Pow2(w)
  }

  lemma MulAdds(a: int, y: int, z: int)
    ensures a * (y + z) == a * y + a * z
  {
  }

  lemma Commutes(a: int, b: int)
    ensures a * b == b * a
  {
  }

  lemma MulGroups(a: int, b: int, c: int)
    ensures a * (b * c) == a * b * c
  {
  }

  /** Two divisions with remainder, one inside the other, are one. */
  lemma {:induction false} Nested(x: nat, a: nat, q: nat, r: nat, b: nat, t: nat, u: nat)
    requires x == a * q + r && r < a && q == b * t + u && u < b
    ensures x == a * b * t + (a * u + r) && a * u + r < a * b
  {
    MulAdds(a, b * t, u);
    MulGroups(a, b, t);
    MulMono(a, u, b - 1);
    MulAdds(a, b, -1);
  }

  lemma {:induction false} DivTwice(x: nat, a: nat, b: nat)
    requires a > 0 && b > 0
    ensures a * b > 0 && x / (a * b) == x / a / b && x % (a * b) == a * (x / a % b) + x % a
  {
    var q, r := x / a, x % a;
    var t, u := q / b, q % b;
    Nested(x, a, q, r, b, t, u);
    DivUnique(x, a * b, t, a * u + r);
  }

  lemma MulMono(a: nat, x: nat, y: nat)
    requires x <= y
    ensures a * x <= a * y
  {
  }

  lemma {:induction false} DivUnique(x: nat, d: nat, q: nat, r: nat)
    requires d > 0 && x == d * q + r && r < d
    ensures x / d == q && x % d == r
  {
    var q', r' := x / d, x % d;
    if q' > q {
      MulMono(d, q + 1, q');
      MulAdds(d, q, 1);
    } else if q' < q {
      MulMono(d, q' + 1, q);
      MulAdds(d, q', 1);
    }
  }

  /** A field is its low part plus its high part shifted up. */
  lemma FieldSplits(x: nat, s: nat, v: nat, w: nat)
    ensures Field(x, s, v + w) == Field(x, s, v) + Pow2(v) * Field(x, s + v, w)
    ensures Field(x, s, v) < Pow2(v)
  {
    hide Pow2;
    Pow2Adds(v, w);
    Pow2Adds(s, v);
    DivTwice(x, Pow2(s), Pow2(v));
    DivTwice(x / Pow2(s), Pow2(v), Pow2(w));
  }

  /** A field of a field. */
  lemma {:induction false} FieldOfField(x: nat, s: nat, w: nat, t: nat, v: nat)
    requires t + v <= w
    ensures Field(Field(x, s, w), t, v) == Field(x, s + t, v)
  {
    FieldSplits(x, s, t, w - t);
    FieldSplits(x, s + t, v, w - t - v);
    var low, high := Field(x, s, t), Field(x, s + t, w - t);
    DivUnique(Field(x, s, w), Pow2(t), high, low);
    var a, b := Field(x, s + t, v), Field(x, s + t + v, w - t - v);
    DivUnique(high, Pow2(v), b, a);
  }

  lemma {:induction false} FieldWhole(x: nat, w: nat)
    requires x < Pow2(w)
    ensures Field(x, 0, w) == x
  {
    DivUnique(x, Pow2(w), 0, x);
  }

  // ----- the operators are arithmetic

  /** Or with something shifted above it is addition. */
  lemma {:induction false} OrAdds(a: nat, b: nat, j: nat)
    requires a < Pow2(j)
    ensures Or(a, b * Pow2(j)) == a + b * Pow2(j)
  {
    if j == 0 {
      OrZero(b);
    } else {
      var c := b * Pow2(j - 1);
      assert b * Pow2(j) == 2 * c;
      if a != 0 || c != 0 {
        OrAdds(a / 2, b, j - 1);
      }
    }
  }

  lemma {:induction false} OrZero(b: nat)
    ensures Or(0, b) == b
  {
    if b != 0 {
      OrZero(b / 2);
    }
  }

  /** One bit of an And with an odd mask. */
  lemma AndOdd(a: nat, p: nat)
    requires a > 0 && p > 0
    ensures And(a, 2 * p - 1) == 2 * And(a / 2, p - 1) + a % 2
  {
    assert (2 * p - 1) / 2 == p - 1 && (2 * p - 1) % 2 == 1;
  }

  /** And with a mask of ones keeps the low bits. */
  lemma {:induction false} AndMasks(a: nat, k: nat)
    ensures And(a, Pow2(k) - 1) == a % Pow2(k)
  {
    if k == 0 {
      assert Pow2(0) == 1;
    } else if a == 0 {
      DivUnique(0, Pow2(k), 0, 0);
    } else {
      var p := Pow2(k - 1);
      assert Pow2(k) == 2 * p;
      hide Pow2, And;
      AndMasks(a / 2, k - 1);
      AndOdd(a, p);
      DivTwice(a, 2, p);
    }
  }

  // ----- buffers

  /** The little-endian number in a buffer. */
  function LE(data: seq<Byte>): nat {
    if data == [] then 0 else data[0] + 256 * LE(data[1..])
  }

  /** A field inside one byte of the buffer. */
  lemma {:induction false} FieldInByte(data: seq<Byte>, i: nat, t: nat, w: nat)
    requires i < |data| && t + w <= 8
    ensures Field(LE(data), 8 * i + t, w) == Field(data[i], t, w)
  {
    Pow2Byte();
    if i == 0 {
      var x := LE(data);
      DivUnique(x, 256, LE(data[1..]), data[0]);
      assert Pow2(0) == 1;
      assert Field(x, 0, 8) == data[0];
      FieldOfField(x, 0, 8, t, w);
    } else {
      FieldInByte(data[1..], i - 1, t, w);
      DivUnique(LE(data), 256, LE(data[1..]), data[0]);
      var n := 8 * (i - 1) + t;
      Pow2Adds(8, n);
      DivTwice(LE(data), 256, Pow2(n));
      assert 8 + n == 8 * i + t;
    }
  }

  /** What a run of bits of the buffer is worth. */
  function Chunk(data: seq<Byte>, start: nat, end: nat): nat
    requires start <= end
  {
    Field(LE(data), start, end - start + 1)
  }

  const VALID_MASK: seq<nat> := [0x1, 0x3, 0x7, 0xF, 0x1F, 0x3F, 0x7F, 0xFF]

  lemma MaskIs(k: nat)
    requires k < 8
    ensures VALID_MASK[k] == Pow2(k + 1) - 1
  {
    Pow2Byte();
    assert Pow2(4) == 16 && Pow2(5) == 32 && Pow2(6) == 64 && Pow2(7) == 128;
  }

  /** The byte at the end of a field, masked. */
  lemma MaskedByte(data: seq<Byte>, i: nat, k: nat)
    requires i < |data| && k < 8
    ensures And(data[i], VALID_MASK[k]) == Field(LE(data), 8 * i, k + 1)
  {
    MaskIs(k);
    AndMasks(data[i], k + 1);
    FieldInByte(data, i, 0, k + 1);
  }

  /** One step of the loop: the next byte goes above the bits collected so far. */
  lemma {:induction false} OrByte(data: seq<Byte>, s: nat, j: nat, w: nat, b: nat)
    requires j + w <= 64 && b == Field(LE(data), s + j, w)
    ensures Or(Field(LE(data), s, j), Shl(b, j)) == Field(LE(data), s, j + w)
  {
    hide Pow2, LE, Or, Shl;
    FieldSplits(LE(data), s, j, w);
    ShlFits(b, j, w);
    OrAdds(Field(LE(data), s, j), b, j);
  }

  /** A shift that stays inside 64 bits loses nothing. */
  lemma {:induction false} ShlFits(b: nat, j: nat, w: nat)
    requires b < Pow2(w) && j + w <= 64
    ensures Shl(b, j) == b * Pow2(j)
  {
    hide Pow2;
    Pow2Adds(j, w);
    Pow2Grows(j + w, 64);
    MulMono(Pow2(j), b, Pow2(w) - 1);
    MulAdds(Pow2(j), Pow2(w), -1);
    Commutes(b, Pow2(j));
    DivUnique(b * Pow2(j), Pow2(64), 0, b * Pow2(j));
  }

  /** to_chunkbits where bytes are stored little end first. */
  method ToChunkBits(data: array<Byte>, start: nat, end: nat) returns (val: nat)
    requires start <= end < 256 && end / 8 < data.Length && end - start < 64
    ensures val == Chunk(data[..], start, end)
  {
    hide Pow2, LE, Or, And, Shl, Shr, Field;
    ghost var bytes := data[..];
    var startPos, startOff := start / 8, start % 8;
    var endPos, endOff := end / 8, end % 8;
    if startPos == endPos {
      MaskedByte(bytes, endPos, endOff);
      FieldOfField(LE(bytes), 8 * startPos, endOff + 1, startOff, endOff + 1 - startOff);
      FieldWholeTop(LE(bytes), 8 * startPos, startOff, endOff + 1);
      val := Shr(And(data[startPos], VALID_MASK[endOff]), startOff);
      return;
    }
    FirstByte(bytes, startPos, startOff);
    val := Shr(data[startPos], startOff);
    var i, j := startPos + 1, 8 - startOff;
    while i < endPos
      invariant startPos < i <= endPos && j == 8 * i - start
      invariant val == Field(LE(bytes), start, j)
    {
      FieldInByte(bytes, i, 0, 8);
      ByteWhole(data[i]);
      OrByte(bytes, start, j, 8, data[i]);
      val := Or(val, Shl(data[i], j));
      i, j := i + 1, j + 8;
    }
    MaskedByte(bytes, endPos, endOff);
    OrByte(bytes, start, j, endOff + 1, And(data[endPos], VALID_MASK[endOff]));
    val := Or(val, Shl(And(data[endPos], VALID_MASK[endOff]), j));
  }

  lemma ByteWhole(b: Byte)
    ensures Field(b, 0, 8) == b
  {
    Pow2Byte();
    FieldWhole(b, 8);
  }

  /** The top of a field, without a mask. */
  lemma {:induction false} FieldWholeTop(x: nat, s: nat, t: nat, w: nat)
    requires t <= w
    ensures Shr(Field(x, s, w), t) == Field(x, s + t, w - t)
  {
    FieldSplits(x, s, t, w - t);
    DivUnique(Field(x, s, w), Pow2(t), Field(x, s + t, w - t), Field(x, s, t));
  }

  lemma FirstByte(data: seq<Byte>, i: nat, t: nat)
    requires i < |data| && t < 8
    ensures Shr(data[i], t) == Field(LE(data), 8 * i + t, 8 - t)
  {
    FieldInByte(data, i, 0, 8);
    ByteWhole(data[i]);
    FieldWholeTop(LE(data), 8 * i, t, 8);
  }

  // ----- what callers rely on

  /** to_1bit */
  function ToBit(data: seq<Byte>, bit: nat): nat
    requires bit / 8 < |data|
  {
    And(Shr(data[bit / 8], bit % 8), 0x1)
  }

  lemma BitIsChunk(data: seq<Byte>, bit: nat)
    requires bit / 8 < |data|
    ensures ToBit(data, bit) == Chunk(data, bit, bit)
  {
    var i, t := bit / 8, bit % 8;
    AndMasks(Shr(data[i], t), 1);
    assert Pow2(1) == 2;
    FieldInByte(data, i, t, 1);
  }

  /** Two adjacent runs of bits are one run. */
  lemma {:induction false} AdjacentChunks(data: seq<Byte>, start: nat, mid: nat, end: nat)
    requires start <= mid < end
    ensures Chunk(data, start, mid) + Pow2(mid + 1 - start) * Chunk(data, mid + 1, end) == Chunk(data, start, end)
  {
    FieldSplits(LE(data), start, mid - start + 1, end - mid);
  }

  lemma {:induction false} LEBound(data: seq<Byte>)
    ensures LE(data) < Pow2(8 * |data|)
  {
    Pow2Byte();
    if data != [] {
      LEBound(data[1..]);
      Pow2Adds(8, 8 * |data[1..]|);
      assert 8 + 8 * |data[1..]| == 8 * |data|;
    }
  }

  /** A buffer behind another counts above it. */
  lemma {:induction false} LEAppend(a: seq<Byte>, b: seq<Byte>)
    ensures LE(a + b) == LE(a) + Pow2(8 * |a|) * LE(b)
  {
    if a == [] {
      assert a + b == b && Pow2(0) == 1;
    } else {
      var t := a[1..];
      LEAppend(t, b);
      assert (a + b)[1..] == t + b;
      assert LE(a + b) == a[0] + 256 * LE(t + b) && LE(a) == a[0] + 256 * LE(t);
      ByteMore(|t|);
      hide Pow2, LE;
      assert 8 * |a| == 8 + 8 * |t|;
      MulGroups(256, Pow2(8 * |t|), LE(b));
    }
  }

  lemma ByteMore(n: nat)
    ensures Pow2(8 + 8 * n) == 256 * Pow2(8 * n)
  {
    Pow2Byte();
    Pow2Adds(8, 8 * n);
  }

  /** The first `n` bytes are the low bits of the whole buffer: to_uint16, to_uint32 and to_uint64. */
  lemma {:induction false} LowBytes(data: seq<Byte>, n: nat)
    requires 0 < n <= |data|
    ensures Chunk(data, 0, 8 * n - 1) == LE(data[..n])
  {
    Pow2Byte();
    assert Pow2(0) == 1;
    var x, rest := LE(data), LE(data[1..]);
    DivUnique(x, 256, rest, data[0]);
    assert data[..n][1..] == data[1..][..n - 1];
    FieldSplits(x, 0, 8, 8 * (n - 1));
    assert Field(x, 8, 8 * (n - 1)) == Field(rest, 0, 8 * (n - 1));
    if n == 1 {
      assert Field(rest, 0, 0) == 0;
    } else {
      LowBytes(data[1..], n - 1);
    }
  }

  /** The `n` little-endian bytes of a number. */
  function Bytes(x: nat, n: nat): (d: seq<Byte>)
    ensures |d| == n
  {
    if n == 0 then [] else [x % 256] + Bytes(x / 256, n - 1)
  }

  lemma {:induction false} BytesOfLE(data: seq<Byte>)
    ensures Bytes(LE(data), |data|) == data
  {
    if data != [] {
      BytesOfLE(data[1..]);
      DivUnique(LE(data), 256, LE(data[1..]), data[0]);
    }
  }

  lemma {:induction false} LEOfBytes(x: nat, n: nat)
    requires x < Pow2(8 * n)
    ensures LE(Bytes(x, n)) == x
  {
    Pow2Byte();
    if n > 0 {
      Pow2Adds(8, 8 * (n - 1));
      assert x / 256 < Pow2(8 * (n - 1));
      LEOfBytes(x / 256, n - 1);
    }
  }
}
