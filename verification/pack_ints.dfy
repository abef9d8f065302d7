/** Fixed-size integers as bytes, in both byte orders, and alignment of positions. */
module PackInts {
  import opened Core
  import opened Bits

  const TWO63: int := 0x8000_0000_0000_0000
  const TWO64: int := 0x1_0000_0000_0000_0000

  type i64 = x: int | -0x8000_0000_0000_0000 <= x < 0x8000_0000_0000_0000
  type u64 = x: int | 0 <= x < 0x1_0000_0000_0000_0000

  /** Reinterpreting the 64 bits of a signed integer as unsigned, and back. */
  function ToU64(v: i64): u64 { if v < 0 then v + TWO64 else v }
  function ToI64(v: u64): i64 { if v >= TWO63 then v - TWO64 else v }

  // ----- writing -----

  /** The `size` low bytes of `v`, least significant first. */
  function LeBytes(v: nat, size: nat): (b: bytes)
    ensures |b| == size
  {
    if size == 0 then [] else [v % 256] + LeBytes(v / 256, size - 1)
  }

  function Reversed(b: bytes): (r: bytes)
    ensures |r| == |b|
    ensures forall k :: 0 <= k < |b| ==> r[k] == b[|b| - 1 - k]
  {
    seq(|b|, k requires 0 <= k < |b| => b[|b| - 1 - k])
  }

  function IntBytes(v: i64, size: nat, little: bool): (b: bytes)
    ensures |b| == size
  {
    var le := LeBytes(ToU64(v), size);
    if little then le else Reversed(le)
  }

  lemma {:induction false} LeBytesAt(v: nat, size: nat, k: nat)
    requires k < size
    ensures LeBytes(v, size)[k] == Shifted(v, k) % 256
  {
    if k > 0 {
      LeBytesAt(v / 256, size - 1, k - 1);
    }
  }

  function Shifted(v: nat, k: nat): nat {
    if k == 0 then v else Shifted(v / 256, k - 1)
  }

  lemma {:induction false} ShiftedNext(v: nat, k: nat)
    ensures Shifted(v, k + 1) == Shifted(v, k) / 256
  {
    if k > 0 {
      ShiftedNext(v / 256, k - 1);
    }
  }

  /** Writes `size` bytes of `val` at `pos`; the rest of the buffer is left alone. */
  method WriteInt(buf: array<byte>, pos: nat, val: i64, size: nat, little: bool) returns (ok: bool)
    modifies buf
    ensures ok <==> pos + size <= buf.Length
    ensures !ok ==> buf[..] == old(buf[..])
    ensures ok ==> buf[pos..pos + size] == IntBytes(val, size, little)
    ensures ok ==> forall j :: 0 <= j < buf.Length && !(pos <= j < pos + size) ==> buf[j] == old(buf[j])
  {
    if pos + size > buf.Length {
      return false;
    }
    if little {
      WriteLittle(buf, pos, ToU64(val), size);
    } else {
      WriteBig(buf, pos, ToU64(val), size);
    }
    return true;
  }

  method WriteLittle(buf: array<byte>, pos: nat, val: nat, size: nat)
    requires pos + size <= buf.Length
    modifies buf
    ensures buf[pos..pos + size] == LeBytes(val, size)
    ensures forall j :: 0 <= j < buf.Length && !(pos <= j < pos + size) ==> buf[j] == old(buf[j])
  {
    hide LeBytes, Shifted;
    var v := val;
    ghost var le := LeBytes(val, size);
    ShiftedZero(val);
    for k := 0 to size
      invariant v == Shifted(val, k)
      invariant buf[pos..pos + k] == le[..k]
      invariant forall j :: 0 <= j < buf.Length && !(pos <= j < pos + k) ==> buf[j] == old(buf[j])
    {
      LeBytesAt(val, size, k);
      ShiftedNext(val, k);
      buf[pos + k] := v % 256;
      v := v / 256;
      assert buf[pos..pos + (k + 1)] == buf[pos..pos + k] + [buf[pos + k]];
      assert le[..k + 1] == le[..k] + [le[k]];
    }
    assert le[..size] == le;
  }

  method WriteBig(buf: array<byte>, pos: nat, val: nat, size: nat)
    requires pos + size <= buf.Length
    modifies buf
    ensures buf[pos..pos + size] == Reversed(LeBytes(val, size))
    ensures forall j :: 0 <= j < buf.Length && !(pos <= j < pos + size) ==> buf[j] == old(buf[j])
  {
    hide LeBytes, Shifted;
    var v := val;
    ghost var be := Reversed(LeBytes(val, size));
    ShiftedZero(val);
    for k := 0 to size
      invariant v == Shifted(val, k)
      invariant buf[pos + size - k..pos + size] == be[size - k..]
      invariant forall j :: 0 <= j < buf.Length && !(pos + size - k <= j < pos + size) ==> buf[j] == old(buf[j])
    {
      LeBytesAt(val, size, k);
      ShiftedNext(val, k);
      var at := pos + size - 1 - k;
      ghost var before := buf[at + 1..pos + size];
      buf[at] := v % 256;
      v := v / 256;
      assert buf[at..pos + size] == [buf[at]] + before;
      assert be[size - 1 - k..] == [be[size - 1 - k]] + be[size - k..];
    }
    assert be[0..] == be;
  }

  lemma ShiftedZero(v: nat)
    ensures Shifted(v, 0) == v
  {}

  // ----- reading -----

  function LeValue(b: bytes): nat {
    if b == [] then 0 else b[0] + 256 * LeValue(b[1..])
  }

  /** The bytes, least significant first. */
  function LeOrder(b: bytes, little: bool): bytes {
    if little then b else Reversed(b)
  }

  /** Bytes from `k` on or-ed together, each shifted to its place; a shift by the word's width or
      more is taken modulo 64, as the machine does. */
  function OrFrom(b: bytes, k: nat): nat
    decreases |b| - k
  {
    if k >= |b| then 0 else Or(OrFrom(b, k + 1), b[k] * Pow2(8 * k % 64))
  }

  /** The word read from `b` in the given byte order. */
  function UintOf(b: bytes, little: bool): nat {
    OrFrom(LeOrder(b, little), 0)
  }

  function SignExtend(v: nat, size: nat, signed: bool): int {
    if signed && size < 8 && v >= Pow2(8 * size) / 2 then v + TWO64 - Pow2(8 * size) else v
  }

  /** The integer that `b` encodes. */
  function ReadValue(b: bytes, little: bool, signed: bool): i64
    requires 1 <= |b|
  {
    ExtendFits(b, little, signed);
    ToI64(SignExtend(UintOf(b, little), |b|, signed))
  }

  lemma ExtendFits(b: bytes, little: bool, signed: bool)
    requires 1 <= |b|
    ensures 0 <= SignExtend(UintOf(b, little), |b|, signed) < TWO64
  {
    UintWord(b, little);
    if |b| < 8 {
      UintBound(b, little);
      SizeFits(|b|);
    }
  }

  lemma UintWord(b: bytes, little: bool)
    ensures UintOf(b, little) < TWO64
  {
    OrFromBound(LeOrder(b, little), 0);
    Pow264();
  }

  lemma {:induction false} OrFromBound(b: bytes, k: nat)
    ensures OrFrom(b, k) < Pow2(64)
    decreases |b| - k
  {
    hide Or, Pow2;
    Pow2Least(64);
    if k < |b| {
      OrFromBound(b, k + 1);
      var place := 8 * k % 64;
      PlaceBound(b[k], place);
      OrBound(OrFrom(b, k + 1), b[k] * Pow2(place), 64);
    }
  }

  lemma Pow2Least(n: nat)
    ensures Pow2(n) >= 1
  {}

  lemma PlaceBound(x: byte, place: nat)
    requires place <= 56
    ensures x * Pow2(place) < Pow2(64)
  {
    hide Pow2;
    Pow2Add(place, 64 - place);
    Pow2Add(8, 56 - place);
    Pow2Least(place);
    Pow2Least(56 - place);
    assert Pow2(8) == 256 by { PowOfByte(); }
    MulAtLeast(256, Pow2(56 - place));
    MulBelow(x, Pow2(64 - place), Pow2(place));
  }

  lemma PowOfByte()
    ensures Pow2(8) == 256
  {
    assert Pow2(4) == 16;
  }

  lemma MulBelow(x: nat, y: nat, p: nat)
    requires x < y && p >= 1
    ensures x * p < p * y
  {}

  lemma UintBound(b: bytes, little: bool)
    requires |b| <= 8
    ensures UintOf(b, little) == LeValue(LeOrder(b, little)) < Pow2(8 * |b|)
  {
    hide OrFrom, LeValue, Pow2;
    var le := LeOrder(b, little);
    LeValueBound(le);
    OrFromValue(le, 0);
    assert le[0..|le|] == le;
    Pow2Zero();
  }

  /** Up to eight bytes, and zeros behind them, the word is the number the bytes write. */
  lemma {:induction false} OrFromValue(b: bytes, k: nat)
    requires k <= |b| && k <= 8 && forall j :: 8 <= j < |b| ==> b[j] == 0
    ensures OrFrom(b, k) == LeValue(b[k..if |b| <= 8 then |b| else 8]) * Pow2(8 * k)
    decreases 8 - k
  {
    hide Or, OrFrom, Pow2, LeValue;
    var m := if |b| <= 8 then |b| else 8;
    if k == m {
      LeValueEmpty();
      assert b[k..m] == [];
      OrFromZeros(b, k);
    } else {
      OrFromNext(b, k);
      OrFromValue(b, k + 1);
      ByteShift(b[k], LeValue(b[k + 1..m]), k);
      LeValueCons(b[k], b[k + 1..m]);
      assert b[k..m] == [b[k]] + b[k + 1..m];
    }
  }

  lemma {:induction false} OrFromZeros(b: bytes, k: nat)
    requires forall j :: k <= j < |b| ==> b[j] == 0
    ensures OrFrom(b, k) == 0
    decreases |b| - k
  {
    hide Pow2;
    if k < |b| {
      OrFromZeros(b, k + 1);
      assert b[k] * Pow2(8 * k % 64) == 0;
      OrZero(0);
    }
  }

  lemma Pow2Bytes(k: nat)
    ensures Pow2(8 * k + 8) == 256 * Pow2(8 * k)
  {
    Pow2Add(8 * k, 8);
    assert Pow2(8) == 256;
  }

  lemma Pow264()
    ensures Pow2(64) == TWO64
  {
    Pow216();
    hide Pow2;
    Pow2Add(16, 16);
    Pow2Add(32, 32);
  }

  lemma Pow216()
    ensures Pow2(16) == 65536
  {
    assert Pow2(4) == 16;
    hide Pow2;
    Pow2Add(4, 4);
    Pow2Add(8, 8);
  }

  lemma {:induction false} LeValueBound(b: bytes)
    ensures LeValue(b) < Pow2(8 * |b|)
  {
    if b != [] {
      LeValueBound(b[1..]);
      Pow2Bytes(|b| - 1);
    }
  }

  lemma MulSwap(x: nat, p: nat)
    ensures 256 * (x * p) == x * (256 * p)
  {}

  lemma {:induction false} LeValueSnoc(b: bytes, x: byte)
    ensures LeValue(b + [x]) == LeValue(b) + x * Pow2(8 * |b|)
  {
    if b == [] {
      assert [] + [x] == [x];
    } else {
      assert (b + [x])[1..] == b[1..] + [x];
      LeValueSnoc(b[1..], x);
      Pow2Bytes(|b| - 1);
      MulSwap(x, Pow2(8 * |b| - 8));
    }
  }

  lemma LeValueCons(x: byte, b: bytes)
    ensures LeValue([x] + b) == x + 256 * LeValue(b)
  {
    assert ([x] + b)[1..] == b;
  }

  /** Reads `size` bytes at `pos`, or-ing shifted bytes together, and sign-extends. With overflow
      checks compiled in, a size above eight shifts by the word width or more and aborts. */
  method ReadInt(buf: bytes, pos: nat, size: nat, little: bool, signed: bool, checks: bool) returns (r: Checked<i64>)
    requires 1 <= size && pos + size <= |buf|
    ensures r.Panicked? <==> checks && size > 8
    ensures r.Returned? ==> r == Returned(ReadValue(buf[pos..pos + size], little, signed))
  {
    hide Pow2, And, Or, UintOf;
    var word := ReadBytes(buf, pos, size, little, checks);
    if word.Panicked? {
      return Panicked;
    }
    var v := word.value;
    ghost var b := buf[pos..pos + size];
    UintWord(b, little);
    if size < 8 {
      UintBound(b, little);
      SizeFits(size);
    }
    if signed && size < 8 && And(v, Pow2(size * 8 - 1)) != 0 {
      SignBit(v, size);
      HighOnes(v, size);
      v := Or(v, TWO64 - Pow2(size * 8));
    } else if signed && size < 8 {
      SignBit(v, size);
    }
    return Returned(ToI64(v));
  }

  lemma SizeFits(size: nat)
    requires size <= 8
    ensures Pow2(8 * size) <= TWO64
  {
    Pow264();
    Pow2Add(8 * size, 64 - 8 * size);
    MulAtLeast(Pow2(8 * size), Pow2(64 - 8 * size));
  }

  lemma SignBit(v: nat, size: nat)
    requires 1 <= size < 8 && v < Pow2(8 * size)
    ensures And(v, Pow2(size * 8 - 1)) != 0 <==> v >= Pow2(8 * size) / 2
  {
    AndTopBit(v, size * 8 - 1);
    assert Pow2(8 * size) == 2 * Pow2(size * 8 - 1);
  }

  lemma HighOnes(v: nat, size: nat)
    requires 1 <= size < 8 && v < Pow2(8 * size)
    ensures 0 <= TWO64 - Pow2(size * 8)
    ensures Or(v, TWO64 - Pow2(size * 8)) == v + TWO64 - Pow2(8 * size)
  {
    hide Pow2, Or;
    SizeFits(size);
    Pow264();
    Pow2Add(64 - 8 * size, 8 * size);
    var high := Pow2(64 - 8 * size) - 1;
    LessOne(high + 1, Pow2(8 * size));
    OrDisjoint(v, high, 8 * size);
  }

  lemma LessOne(a: nat, m: nat)
    requires a >= 1
    ensures (a - 1) * m == a * m - m
  {}

  method ReadBytes(buf: bytes, pos: nat, size: nat, little: bool, checks: bool) returns (r: Checked<nat>)
    requires 1 <= size && pos + size <= |buf|
    ensures r.Panicked? <==> checks && size > 8
    ensures r.Returned? ==> r.value == UintOf(buf[pos..pos + size], little)
  {
    if little {
      r := ReadLittle(buf, pos, size, checks);
    } else {
      r := ReadBig(buf, pos, size, checks);
    }
  }

  method ReadLittle(buf: bytes, pos: nat, size: nat, checks: bool) returns (r: Checked<nat>)
    requires 1 <= size && pos + size <= |buf|
    ensures r.Panicked? <==> checks && size > 8
    ensures r.Returned? ==> r.value == OrFrom(buf[pos..pos + size], 0)
  {
    hide Or, Pow2, OrFrom;
    var v: nat := 0;
    ghost var b := buf[pos..pos + size];
    OrZero(OrFrom(b, 0));
    for k := 0 to size
      invariant checks && k > 0 ==> k <= 8
      invariant Or(v, OrFrom(b, k)) == OrFrom(b, 0)
    {
      if checks && k * 8 >= 64 {
        return Panicked;
      }
      var x := buf[pos + k] * Pow2(k * 8 % 64);
      OrFromNext(b, k);
      OrShuffle(v, OrFrom(b, k + 1), x);
      v := Or(v, x);
    }
    OrFromEnd(b);
    OrZero(v);
    return Returned(v);
  }

  method ReadBig(buf: bytes, pos: nat, size: nat, checks: bool) returns (r: Checked<nat>)
    requires 1 <= size && pos + size <= |buf|
    ensures r.Panicked? <==> checks && size > 8
    ensures r.Returned? ==> r.value == OrFrom(Reversed(buf[pos..pos + size]), 0)
  {
    hide Or, Pow2, OrFrom;
    var v: nat := 0;
    ghost var b := Reversed(buf[pos..pos + size]);
    OrFromEnd(b);
    for k := 0 to size
      invariant v == OrFrom(b, size - k)
      invariant checks && k > 0 ==> size <= 8
    {
      if checks && (size - 1 - k) * 8 >= 64 {
        return Panicked;
      }
      OrFromNext(b, size - 1 - k);
      v := Or(v, buf[pos + k] * Pow2((size - 1 - k) * 8 % 64));
    }
    return Returned(v);
  }

  lemma OrFromNext(b: bytes, k: nat)
    requires k < |b|
    ensures OrFrom(b, k) == Or(OrFrom(b, k + 1), b[k] * Pow2(8 * k % 64))
  {}

  lemma OrFromEnd(b: bytes)
    ensures OrFrom(b, |b|) == 0
  {}

  lemma OrShuffle(v: nat, rest: nat, x: nat)
    ensures Or(v, Or(rest, x)) == Or(Or(v, x), rest)
  {
    OrCommutes(rest, x);
    OrAssociates(v, x, rest);
  }

  lemma LeValueEmpty()
    ensures LeValue([]) == 0
  {}

  lemma Pow2Zero()
    ensures Pow2(0) == 1
  {}

  lemma ByteShift(x: byte, high: nat, j: nat)
    ensures Or(high * Pow2(8 * (j + 1)), x * Pow2(8 * j)) == (x + 256 * high) * Pow2(8 * j)
  {
    hide Or, Pow2;
    var p := Pow2(8 * j);
    Pow2Bytes(j);
    ByteBelow(x, p);
    OrDisjoint(x * p, high, 8 * j + 8);
    assert high * (256 * p) == 256 * high * p;
    assert (x + 256 * high) * p == x * p + 256 * high * p;
  }

  lemma ByteBelow(x: byte, p: nat)
    requires p >= 1
    ensures 0 <= x * p < 256 * p
  {}

  // ----- writing, then reading -----

  /** The value of the low `size` bytes of `v`, read back with or without sign. */
  function Wrapped(v: i64, size: nat, signed: bool): i64
    requires 1 <= size
  {
    if size >= 8 then v
    else
      var m := Pow2(8 * size);
      var r := ToU64(v) % m;
      SizeFits(size);
      if signed && r >= m / 2 then r - m
      else WrapFits(r, size); r
  }

  lemma WrapFits(r: nat, size: nat)
    requires 1 <= size < 8 && r < Pow2(8 * size)
    ensures r < TWO63
  {
    SizeFits(size + 1);
    Pow2Bytes(size);
  }

  predicate InRange(v: i64, size: nat, signed: bool)
    requires 1 <= size
  {
    size >= 8 ||
    (if signed then -(Pow2(8 * size) / 2) <= v < Pow2(8 * size) / 2 else 0 <= v < Pow2(8 * size))
  }

  lemma {:induction false} LeBytesValue(v: nat, size: nat)
    ensures LeValue(LeBytes(v, size)) == v % Pow2(8 * size)
  {
    if size == 0 {
      assert v % 1 == 0;
    } else {
      LeBytesValue(v / 256, size - 1);
      LeValueCons(v % 256, LeBytes(v / 256, size - 1));
      Pow2Bytes(size - 1);
      ByteMod(v, Pow2(8 * size - 8));
      hide Pow2, LeValue;
    }
  }

  lemma ByteMod(v: nat, h: nat)
    requires h >= 1
    ensures v % (256 * h) == v % 256 + 256 * (v / 256 % h)
  {
    var q, r := v / 256 / h, v / 256 % h;
    assert v / 256 == h * q + r;
    assert 256 * (h * q) == (256 * h) * q;
    ModUnique(v, 256 * h, q, 256 * r + v % 256);
  }

  lemma ReversedTwice(b: bytes)
    ensures Reversed(Reversed(b)) == b
  {}

  /** Reading what was written gives the value wrapped to the size and signedness, in either
      byte order. */
  lemma {:induction false} ReadBackInt(v: i64, size: nat, little: bool, signed: bool)
    requires 1 <= size
    ensures ReadValue(IntBytes(v, size, little), little, signed) == Wrapped(v, size, signed)
  {
    WordWritten(v, size, little);
    if size < 8 {
      SizeFits(size);
      WrapFits(ToU64(v) % Pow2(8 * size), size);
    }
  }

  /** The word read back from the bytes of an integer: its low bytes, or all of it. */
  lemma {:induction false} WordWritten(v: i64, size: nat, little: bool)
    ensures UintOf(IntBytes(v, size, little), little) == if size >= 8 then ToU64(v) else ToU64(v) % Pow2(8 * size)
  {
    hide Pow2, OrFrom, LeBytes;
    ReversedTwice(LeBytes(ToU64(v), size));
    LowWord(ToU64(v), size);
  }

  lemma {:induction false} LowWord(u: u64, size: nat)
    ensures OrFrom(LeBytes(u, size), 0) == if size >= 8 then u else u % Pow2(8 * size)
  {
    hide Pow2, OrFrom, LeValue, LeBytes;
    var le := LeBytes(u, size);
    var m := if size <= 8 then size else 8;
    LeBytesPrefix(u, size, m);
    forall j | 8 <= j < size ensures le[j] == 0 {
      HighByte(u, size, j);
    }
    OrFromValue(le, 0);
    LeBytesValue(u, m);
    Pow2Zero();
    if size >= 8 {
      Pow264();
      SmallMod(u, TWO64);
    }
  }

  lemma HighByte(u: u64, size: nat, j: nat)
    requires 8 <= j < size
    ensures LeBytes(u, size)[j] == 0
  {
    hide LeBytes, Shifted;
    LeBytesAt(u, size, j);
    ShiftedOut(u, j);
  }

  lemma {:induction false} LeBytesPrefix(v: nat, size: nat, m: nat)
    requires m <= size
    ensures LeBytes(v, size)[..m] == LeBytes(v, m)
  {
    if m > 0 {
      LeBytesPrefix(v / 256, size - 1, m - 1);
      assert LeBytes(v, size)[..m] == [v % 256] + LeBytes(v / 256, size - 1)[..m - 1];
    }
  }

  lemma {:induction false} ShiftedOut(v: nat, k: nat)
    requires v < TWO64 && k >= 8
    ensures Shifted(v, k) == 0
  {
    if k > 8 {
      ShiftedOut(v, k - 1);
      ShiftedNext(v, k - 1);
    } else {
      ShiftedEight(v);
    }
  }

  lemma ShiftedEight(v: nat)
    requires v < TWO64
    ensures Shifted(v, 8) == 0
  {
    hide Shifted;
    ShiftedZero(v);
    ShiftedNext(v, 0);
    ShiftedNext(v, 1);
    ShiftedNext(v, 2);
    ShiftedNext(v, 3);
    assert Shifted(v, 4) < 0x1_0000_0000;
    ShiftedNext(v, 4);
    ShiftedNext(v, 5);
    ShiftedNext(v, 6);
    ShiftedNext(v, 7);
  }

  lemma SmallMod(a: nat, m: nat)
    requires a < m
    ensures a % m == a
  {
    ModUnique(a, m, 0, a);
  }

  lemma NegativeMod(v: i64, m: nat, q: nat)
    requires v < 0 <= m + v && m * q == TWO64
    ensures ToU64(v) % m == v + m
  {
    LessOne(q, m);
    ModUnique(ToU64(v), m, q - 1, v + m);
  }

  /** The value survives exactly when it is representable. */
  lemma WrappedIffInRange(v: i64, size: nat, signed: bool)
    requires 1 <= size
    ensures Wrapped(v, size, signed) == v <==> InRange(v, size, signed)
  {
    hide Pow2;
    if size < 8 {
      var m := Pow2(8 * size);
      HalfEven(size);
      WrapFits(m - 1, size);
      if 0 <= v < m {
        SmallMod(v, m);
      } else if -m <= v < 0 {
        Pow264();
        Pow2Add(8 * size, 64 - 8 * size);
        NegativeMod(v, m, Pow2(64 - 8 * size));
      }
    }
  }

  lemma HalfEven(size: nat)
    requires size >= 1
    ensures Pow2(8 * size) % 2 == 0 && Pow2(8 * size) >= 2
  {
    assert Pow2(8 * size) == 2 * Pow2(8 * size - 1);
  }

  // ----- alignment -----

  function AlignPos(pos: nat, size: nat, alignMax: nat): (r: nat) {
    var a := if size < alignMax then size else alignMax;
    if a <= 1 then pos
    else if And(pos, a - 1) == 0 then pos
    else AndNot(pos + a - 1, a - 1)
  }

  /** Aligning never moves a position backwards, nor by as much as the alignment. */
  lemma AlignForward(pos: nat, size: nat, alignMax: nat)
    ensures pos <= AlignPos(pos, size, alignMax)
    ensures var a := if size < alignMax then size else alignMax;
            AlignPos(pos, size, alignMax) == pos || AlignPos(pos, size, alignMax) < pos + a
  {
    var a := if size < alignMax then size else alignMax;
    if a > 1 {
      AndSplit(pos + a - 1, a - 1);
    }
  }

  ghost predicate LeastMultiple(r: nat, pos: nat, a: nat)
    requires a > 0
  {
    pos <= r && r % a == 0 && forall m: nat :: pos <= m && m % a == 0 ==> r <= m
  }

  /** Alignment to `a` yields the least multiple at or after every position exactly when `a`
      is a power of two. */
  lemma AlignsExactlyPowersOfTwo(a: nat)
    requires a > 1
    ensures (forall pos: nat :: LeastMultiple(AlignPos(pos, a, a), pos, a)) <==> exists k :: a == Pow2(k)
  {
    if exists k: nat :: a == Pow2(k) {
      var k: nat :| a == Pow2(k);
      forall pos: nat ensures LeastMultiple(AlignPos(pos, a, a), pos, a) {
        AlignPowerOfTwo(pos, k);
      }
    }
    if forall pos: nat :: LeastMultiple(AlignPos(pos, a, a), pos, a) {
      var m := a - 1;
      SelfMultiple(a);
      assert LeastMultiple(AlignPos(a, a, a), a, a);
      assert AlignPos(a, a, a) == a;
      if And(a, m) == 0 {
        NoSharedBit(m);
      } else {
        AndSplit(2 * m + 1, m);
      }
      var k := RunOfOnes(m);
    }
  }

  lemma SelfMultiple(a: nat)
    requires a > 0
    ensures a % a == 0
  {
    ModUnique(a, a, 1, 0);
  }

  /** `m + 1` shares no bit with `m` only if `2m + 1` contains `m`. */
  lemma {:induction false} NoSharedBit(m: nat)
    requires And(m + 1, m) == 0
    ensures And(2 * m + 1, m) == m
  {
    if m != 0 {
      var q := m / 2;
      AndShift(m, m);
      if m % 2 == 1 {
        assert m == 2 * q + 1;
        AndShift(q + 1, m);
        assert 2 * (q + 1) == m + 1;
        NoSharedBit(q);
      } else {
        assert m == 2 * q;
        AndShift(q, m);
        AndSelf(q);
      }
    }
  }

  lemma {:induction false} AndSelf(q: nat)
    ensures And(q, q) == q
  {
    if q != 0 {
      AndSelf(q / 2);
    }
  }

  lemma AlignPowerOfTwo(pos: nat, k: nat)
    requires Pow2(k) > 1
    ensures LeastMultiple(AlignPos(pos, Pow2(k), Pow2(k)), pos, Pow2(k))
  {
    hide And, AndNot, Pow2, LeastMultiple;
    var a := Pow2(k);
    AndMask(pos, k);
    AndMask(pos + a - 1, k);
    AndSplit(pos + a - 1, a - 1);
    RoundUp(pos, a);
  }

  /** Rounding up by clearing a remainder. */
  lemma RoundUp(pos: nat, a: nat)
    requires a > 1
    ensures pos % a == 0 ==> LeastMultiple(pos, pos, a)
    ensures pos % a != 0 ==> LeastMultiple(pos + a - 1 - (pos + a - 1) % a, pos, a)
  {
    var x := pos + a - 1;
    var r := x - x % a;
    assert x == a * (x / a) + x % a;
    ModUnique(r, a, x / a, 0);
    forall m: nat | pos <= m && m % a == 0 ensures r <= m {
      NoMultipleBetween(m, r, a);
    }
  }

  lemma NoMultipleBetween(m: nat, r: nat, a: nat)
    requires a > 0 && m % a == 0 && r % a == 0 && r < m + a
    ensures r <= m
  {
    var n, t := m / a, r / a;
    assert m == a * n && r == a * t;
    assert a * (t - n) == a * t - a * n;
    if n < t {
      MulAtLeast(a, t - n);
    } else {
      MulOrder(a, t, n);
    }
  }

  lemma MulOrder(a: nat, t: nat, n: nat)
    requires t <= n
    ensures a * t <= a * n
  {}
}
