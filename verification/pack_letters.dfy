/** What the letters of a format mean: byte by byte, for packing, for reading back and for the
    size. A position in a format stands for the options from there on. */
module PackLetters {
  import opened Core
  import opened Bits
  import opened PackInts
  import opened PackFormat
  import opened PackCodec
  import opened PackLaws

  // ----- numbers in a format -----

  function Numeral(n: nat): (s: bytes)
    ensures s != []
  {
    if n < 10 then [0x30 + n] else Numeral(n / 10) + [0x30 + n % 10]
  }

  /** A number, or none, stands from `j` to `e`, and no digit behind it. */
  predicate NumberAt(fmt: bytes, j: nat, n: Option<nat>, e: nat) {
    j <= e <= |fmt| && (e == |fmt| || !(0x30 <= fmt[e] <= 0x39)) &&
    (if n.None? then e == j else fmt[j..e] == Numeral(n.value))
  }

  lemma {:induction false} ReadsDigits(fmt: bytes, j: nat, n: nat)
    requires j + |Numeral(n)| <= |fmt| && fmt[j..j + |Numeral(n)|] == Numeral(n)
    ensures DigitsEnd(fmt, j) == DigitsEnd(fmt, j + |Numeral(n)|)
    ensures DigitsValue(fmt, j, 0) == DigitsValue(fmt, j + |Numeral(n)|, n)
    decreases n
  {
    var s := Numeral(n);
    var k := j + |s| - 1;
    assert fmt[k] == fmt[j..j + |s|][|s| - 1] == s[|s| - 1];
    if n >= 10 {
      assert fmt[j..k] == fmt[j..j + |s|][..|s| - 1] == Numeral(n / 10);
      ReadsDigits(fmt, j, n / 10);
    }
  }

  lemma ReadsNumber(fmt: bytes, j: nat, n: Option<nat>, e: nat)
    requires NumberAt(fmt, j, n, e)
    ensures NumAt(fmt, j) == n && DigitsEnd(fmt, j) == e
  {
    if n.Some? {
      ReadsDigits(fmt, j, n.value);
    }
  }

  // ----- one option at a time -----

  lemma PackOne(fmt: bytes, i: nat, e: nat, op: Op, st: PackState)
    requires Ops(fmt, i) == [op] + Ops(fmt, e)
    ensures PackOps(Ops(fmt, i), st) ==
            match PackStep(op, st) case Err(x) => Err(x) case Ok(st') => PackOps(Ops(fmt, e), st')
  {
    hide Ops, PackStep;
    assert Ops(fmt, i)[1..] == Ops(fmt, e);
    PackOpsStep(Ops(fmt, i), st);
  }

  lemma UnpackOne(fmt: bytes, i: nat, e: nat, op: Op, src: bytes, st: UnpackState)
    requires Ops(fmt, i) == [op] + Ops(fmt, e)
    ensures UnpackOps(Ops(fmt, i), src, st) ==
            match UnpackStep(op, src, st)
            case Err(x) => Err(x)
            case Ok((vals, st')) => if vals == [] then UnpackOps(Ops(fmt, e), src, st') else Onto(vals, UnpackOps(Ops(fmt, e), src, st'))
  {
    hide Ops, UnpackStep;
    assert Ops(fmt, i)[1..] == Ops(fmt, e);
    UnpackOpsStep(Ops(fmt, i), src, st);
    if UnpackStep(op, src, st).Ok? {
      UnpackNone(UnpackOps(Ops(fmt, e), src, UnpackStep(op, src, st).value.1));
    }
  }

  lemma SizeOne(fmt: bytes, i: nat, e: nat, op: Op, size: nat, alignMax: nat)
    requires Ops(fmt, i) == [op] + Ops(fmt, e)
    ensures SizeOps(Ops(fmt, i), size, alignMax) ==
            match SizeStep(op, size, alignMax)
            case Err(x) => Err(x)
            case Ok((size', alignMax')) => SizeOps(Ops(fmt, e), size', alignMax')
  {
    hide Ops, SizeStep;
    assert Ops(fmt, i)[1..] == Ops(fmt, e);
    SizeOpsStep(Ops(fmt, i), size, alignMax);
  }

  // ----- integers -----

  /** The letters of integers of a fixed size. */
  predicate FixedLetter(c: byte, size: nat, signed: bool) {
    (c == 'b' as int && size == 1 && signed) || (c == 'B' as int && size == 1 && !signed) ||
    (c == 'h' as int && size == 2 && signed) || (c == 'H' as int && size == 2 && !signed) ||
    (c == 'l' as int && size == 8 && signed) || (c == 'L' as int && size == 8 && !signed) ||
    (c == 'j' as int && size == 8 && signed) || (c == 'J' as int && size == 8 && !signed) ||
    (c == 'T' as int && size == 8 && !signed)
  }

  /** An integer option from `i` to `e`: a letter of a fixed size, or `i` or `I` with a size from 1
      to 16, four if there is none. */
  predicate IntegerAt(fmt: bytes, i: nat, e: nat, size: nat, signed: bool) {
    i < |fmt| &&
    ((FixedLetter(fmt[i], size, signed) && e == i + 1) ||
     (fmt[i] == (if signed then 'i' else 'I') as int && 1 <= size <= 16 &&
      (NumberAt(fmt, i + 1, Some(size), e) || (size == 4 && NumberAt(fmt, i + 1, None, e)))))
  }

  /** The byte of `v` of weight 256 to the `k`, in two's complement of 64 bits. */
  function ByteOf(v: int, k: nat): byte
    decreases k
  {
    if k == 0 then v % 256 else ByteOf(v / 256, k - 1)
  }

  /** `v` in `size` bytes; those beyond the eighth are zero. */
  function Spelled(v: int, size: nat, little: bool): (b: bytes)
    ensures |b| == size
  {
    seq(size, j requires 0 <= j < size =>
      var k := if little then j else size - 1 - j;
      if k < 8 then ByteOf(v, k) else 0)
  }

  function Pow256(k: nat): nat {
    if k == 0 then 1 else 256 * Pow256(k - 1)
  }

  lemma {:induction false} ShiftedByte(u: nat, v: int, m: nat, k: nat)
    requires (u == v || u == v + Pow256(m)) && k < m
    ensures Shifted(u, k) % 256 == ByteOf(v, k)
    decreases k
  {
    var w: int := if u == v then 0 else Pow256(m - 1);
    assert u == v + 256 * w;
    if k > 0 {
      assert u / 256 == v / 256 + w;
      ShiftedByte(u / 256, v / 256, m - 1, k - 1);
    }
  }

  lemma Pow256Word()
    ensures Pow256(8) == TWO64
  {
    assert Pow256(4) == 0x1_0000_0000;
  }

  /** The bytes written are the integer spelled out. */
  lemma BytesAreSpelled(v: i64, size: nat, little: bool)
    ensures IntBytes(v, size, little) == Spelled(v, size, little)
  {
    hide LeBytes, Shifted, Pow256;
    var le := LeBytes(ToU64(v), size);
    Pow256Word();
    forall k | 0 <= k < size ensures le[k] == if k < 8 then ByteOf(v, k) else 0 {
      LeBytesAt(ToU64(v), size, k);
      if k < 8 {
        ShiftedByte(ToU64(v), v, 8, k);
      } else {
        ShiftedOut(ToU64(v), k);
      }
    }
    var b, s := IntBytes(v, size, little), Spelled(v, size, little);
    assert forall j :: 0 <= j < size ==> b[j] == s[j];
  }

  lemma IntegerHasSize(fmt: bytes, i: nat, e: nat, size: nat, signed: bool)
    requires IntegerAt(fmt, i, e, size, signed)
    ensures 1 <= size <= 16
  {}

  lemma ReadsInteger(fmt: bytes, i: nat, e: nat, size: nat, signed: bool)
    requires IntegerAt(fmt, i, e, size, signed)
    ensures Ops(fmt, i) == [Int(size, signed)] + Ops(fmt, e)
  {
    hide NumberAt, NumAt, DigitsEnd;
    if !FixedLetter(fmt[i], size, signed) {
      if NumberAt(fmt, i + 1, Some(size), e) {
        ReadsNumber(fmt, i + 1, Some(size), e);
      } else {
        ReadsNumber(fmt, i + 1, None, e);
      }
    }
  }

  /** Where an option of this size goes: the position itself without alignment. */
  lemma NotAligned(st: PackState, size: nat)
    requires st.alignMax <= 1 || size <= 1
    ensures AlignPos(|st.out|, size, st.alignMax) == |st.out| && Aligned(st, size) == st.out
  {}

  /** With an alignment that is a power of two: zeros up to the least multiple of it. */
  lemma AlignedToMultiple(st: PackState, size: nat, k: nat)
    requires Pow2(k) > 1 && Pow2(k) == if size < st.alignMax then size else st.alignMax
    ensures LeastMultiple(|Aligned(st, size)|, |st.out|, Pow2(k)) && st.out <= Aligned(st, size)
    ensures forall j :: |st.out| <= j < |Aligned(st, size)| ==> Aligned(st, size)[j] == 0
  {
    hide LeastMultiple, And, AndNot, Pow2;
    AlignPowerOfTwo(|st.out|, k);
    AlignForward(|st.out|, size, st.alignMax);
    assert AlignPos(|st.out|, size, st.alignMax) == AlignPos(|st.out|, Pow2(k), Pow2(k));
  }

  /** An integer option packs its number in its bytes, least significant first or last. */
  lemma IntegerPacks(fmt: bytes, i: nat, e: nat, size: nat, signed: bool, st: PackState)
    requires IntegerAt(fmt, i, e, size, signed)
    ensures PackOps(Ops(fmt, i), st) ==
            if |st.args| == 0 then Err(MissingArg)
            else if !st.args[0].Num? then Err(NumberExpected)
            else if |Aligned(st, size)| + size > 4096 then Err(TooLong)
            else PackOps(Ops(fmt, e), PackState(Aligned(st, size) + Spelled(st.args[0].v, size, st.little), st.args[1..],
                                                st.little, st.alignMax))
  {
    hide Ops, PackOps, IntBytes, Spelled, AlignPos, Padded;
    ReadsInteger(fmt, i, e, size, signed);
    PackOne(fmt, i, e, Int(size, signed), st);
    if st.args != [] && st.args[0].Num? {
      BytesAreSpelled(st.args[0].v, size, st.little);
    }
  }

  /** The integers an option can give back: with sign or without, up to 64 bits. */
  predicate InLetterRange(v: int, size: nat, signed: bool) {
    if size >= 8 then -0x8000_0000_0000_0000 <= v < 0x8000_0000_0000_0000
    else if signed then -(Pow256(size) / 2) <= v < Pow256(size) / 2
    else 0 <= v < Pow256(size)
  }

  lemma {:induction false} Pow256Is(k: nat)
    ensures Pow256(k) == Pow2(8 * k)
  {
    if k > 0 {
      Pow256Is(k - 1);
      Pow2Bytes(k - 1);
    }
  }

  /** The bytes at `p` spell `v`. */
  predicate SpelledAt(src: bytes, p: nat, v: int, size: nat, little: bool) {
    p + size <= |src| && src[p..p + size] == Spelled(v, size, little)
  }

  /** An integer option reads a number in its range back from its bytes. */
  lemma IntegerUnpacks(fmt: bytes, i: nat, e: nat, size: nat, signed: bool, src: bytes, st: UnpackState, v: i64)
    requires IntegerAt(fmt, i, e, size, signed) && InLetterRange(v, size, signed)
    requires SpelledAt(src, AlignPos(st.pos, size, st.alignMax), v, size, st.little)
    ensures UnpackOps(Ops(fmt, i), src, st) ==
            if st.checks && size > 8 then Err(Panic)
            else if st.room == 0 then Err(StackFull)
            else Onto([Num(v)], UnpackOps(Ops(fmt, e), src,
                                          st.(pos := AlignPos(st.pos, size, st.alignMax) + size, room := st.room - 1)))
  {
    hide Ops, UnpackOps, UnpackStep, SpelledAt, AlignPos, InLetterRange, IntegerAt, Onto;
    IntegerHasSize(fmt, i, e, size, signed);
    ReadsInteger(fmt, i, e, size, signed);
    UnpackOne(fmt, i, e, Int(size, signed), src, st);
    SpelledReads(size, signed, src, st, v);
  }

  lemma SpelledReads(size: nat, signed: bool, src: bytes, st: UnpackState, v: i64)
    requires 1 <= size && InLetterRange(v, size, signed)
    requires SpelledAt(src, AlignPos(st.pos, size, st.alignMax), v, size, st.little)
    ensures UnpackStep(Int(size, signed), src, st) ==
            if st.checks && size > 8 then Err(Panic)
            else Yield(Num(v), AlignPos(st.pos, size, st.alignMax) + size, st)
  {
    hide IntBytes, Spelled, AlignPos, ReadValue, Wrapped, InRange, InLetterRange;
    BytesAreSpelled(v, size, st.little);
    ReadBackInt(v, size, st.little, signed);
    WrappedIffInRange(v, size, signed);
    RangesAgree(v, size, signed);
  }

  lemma RangesAgree(v: i64, size: nat, signed: bool)
    requires 1 <= size
    ensures InRange(v, size, signed) <==> InLetterRange(v, size, signed)
  {
    hide Pow256, Pow2;
    Pow256Is(size);
  }

  /** Bytes missing for an integer option are an error. */
  lemma IntegerShort(fmt: bytes, i: nat, e: nat, size: nat, signed: bool, src: bytes, st: UnpackState)
    requires IntegerAt(fmt, i, e, size, signed) && AlignPos(st.pos, size, st.alignMax) + size > |src|
    ensures UnpackOps(Ops(fmt, i), src, st) == Err(OutOfString)
  {
    hide Ops, UnpackOps, AlignPos;
    ReadsInteger(fmt, i, e, size, signed);
    UnpackOne(fmt, i, e, Int(size, signed), src, st);
  }

  lemma IntegerSize(fmt: bytes, i: nat, e: nat, size: nat, signed: bool, n: nat, alignMax: nat)
    requires IntegerAt(fmt, i, e, size, signed)
    ensures SizeOps(Ops(fmt, i), n, alignMax) == SizeOps(Ops(fmt, e), AlignPos(n, size, alignMax) + size, alignMax)
  {
    hide Ops, SizeOps, AlignPos;
    ReadsInteger(fmt, i, e, size, signed);
    SizeOne(fmt, i, e, Int(size, signed), n, alignMax);
  }

  /** `string.pack("<I2", v)` and `string.pack(">I2", v)`. */
  lemma TwoBytes(v: i64)
    ensures PackOps(Ops(['<' as int, 'I' as int, '2' as int], 0), PackState([], [Num(v)], true, 1)) ==
            Ok([v % 256, v / 256 % 256])
    ensures PackOps(Ops(['>' as int, 'I' as int, '2' as int], 0), PackState([], [Num(v)], true, 1)) ==
            Ok([v / 256 % 256, v % 256])
  {
    TwoBytesIn('<' as int, v);
    TwoBytesIn('>' as int, v);
  }

  lemma TwoBytesIn(order: byte, v: i64)
    requires order == '<' as int || order == '>' as int
    ensures PackOps(Ops([order, 'I' as int, '2' as int], 0), PackState([], [Num(v)], true, 1)) ==
            Ok(if order == '<' as int then [v % 256, v / 256 % 256] else [v / 256 % 256, v % 256])
  {
    hide Ops, PackOps, Aligned;
    var fmt: bytes := [order, 'I' as int, '2' as int];
    var st := PackState([], [Num(v)], order == '<' as int, 1);
    OrderPacks(fmt, 0, PackState([], [Num(v)], true, 1));
    assert fmt[2..3] == Numeral(2);
    IntegerPacks(fmt, 1, 3, 2, false, st);
    NotAligned(st, 2);
    assert ByteOf(v, 1) == ByteOf(v / 256, 0);
    assert [] + Spelled(v, 2, st.little) == if st.little then [ByteOf(v, 0), ByteOf(v, 1)] else [ByteOf(v, 1), ByteOf(v, 0)];
    FormatEnds(fmt, PackState([] + Spelled(v, 2, st.little), st.args[1..], st.little, 1));
  }

  lemma FormatEnds(fmt: bytes, st: PackState)
    requires |st.out| <= 4096
    ensures PackOps(Ops(fmt, |fmt|), st) == Ok(st.out)
  {}

  // ----- byte order, alignment, blanks -----

  /** `<` and `=` put the least significant byte first, `>` the most significant one. */
  predicate OrderAt(fmt: bytes, i: nat) {
    i < |fmt| && (fmt[i] == '<' as int || fmt[i] == '=' as int || fmt[i] == '>' as int)
  }

  lemma ReadsOrder(fmt: bytes, i: nat)
    requires OrderAt(fmt, i)
    ensures Ops(fmt, i) == [Endian(fmt[i] != '>' as int)] + Ops(fmt, i + 1)
  {}

  lemma OrderPacks(fmt: bytes, i: nat, st: PackState)
    requires OrderAt(fmt, i)
    ensures PackOps(Ops(fmt, i), st) == PackOps(Ops(fmt, i + 1), st.(little := fmt[i] != '>' as int))
  {
    hide Ops, PackOps;
    ReadsOrder(fmt, i);
    PackOne(fmt, i, i + 1, Endian(fmt[i] != '>' as int), st);
  }

  lemma OrderUnpacks(fmt: bytes, i: nat, src: bytes, st: UnpackState)
    requires OrderAt(fmt, i)
    ensures UnpackOps(Ops(fmt, i), src, st) == UnpackOps(Ops(fmt, i + 1), src, st.(little := fmt[i] != '>' as int))
  {
    hide Ops, UnpackOps;
    ReadsOrder(fmt, i);
    UnpackOne(fmt, i, i + 1, Endian(fmt[i] != '>' as int), src, st);
  }

  lemma OrderSizes(fmt: bytes, i: nat, size: nat, alignMax: nat)
    requires OrderAt(fmt, i)
    ensures SizeOps(Ops(fmt, i), size, alignMax) == SizeOps(Ops(fmt, i + 1), size, alignMax)
  {
    hide Ops, SizeOps;
    ReadsOrder(fmt, i);
    SizeOne(fmt, i, i + 1, Endian(fmt[i] != '>' as int), size, alignMax);
  }

  /** `!` with the largest alignment, sixteen if there is no number or zero. */
  predicate MaxAlignAt(fmt: bytes, i: nat, e: nat, n: nat) {
    i < |fmt| && fmt[i] == '!' as int &&
    ((n > 0 && NumberAt(fmt, i + 1, Some(n), e)) ||
     (n == 16 && (NumberAt(fmt, i + 1, None, e) || NumberAt(fmt, i + 1, Some(0), e))))
  }

  lemma ReadsMaxAlign(fmt: bytes, i: nat, e: nat, n: nat)
    requires MaxAlignAt(fmt, i, e, n)
    ensures Ops(fmt, i) == [MaxAlign(n)] + Ops(fmt, e)
  {
    hide NumberAt, NumAt, DigitsEnd;
    if n > 0 && NumberAt(fmt, i + 1, Some(n), e) {
      ReadsNumber(fmt, i + 1, Some(n), e);
    } else if NumberAt(fmt, i + 1, None, e) {
      ReadsNumber(fmt, i + 1, None, e);
    } else {
      ReadsNumber(fmt, i + 1, Some(0), e);
    }
  }

  lemma MaxAlignSets(fmt: bytes, i: nat, e: nat, n: nat, st: PackState, src: bytes, ust: UnpackState, size: nat, alignMax: nat)
    requires MaxAlignAt(fmt, i, e, n)
    ensures PackOps(Ops(fmt, i), st) == PackOps(Ops(fmt, e), st.(alignMax := n))
    ensures UnpackOps(Ops(fmt, i), src, ust) == UnpackOps(Ops(fmt, e), src, ust.(alignMax := n))
    ensures SizeOps(Ops(fmt, i), size, alignMax) == SizeOps(Ops(fmt, e), size, n)
  {
    hide Ops, PackOps, UnpackOps, SizeOps;
    ReadsMaxAlign(fmt, i, e, n);
    PackOne(fmt, i, e, MaxAlign(n), st);
    UnpackOne(fmt, i, e, MaxAlign(n), src, ust);
    SizeOne(fmt, i, e, MaxAlign(n), size, alignMax);
  }

  /** A blank does nothing. */
  lemma BlankSkipped(fmt: bytes, i: nat, st: PackState, src: bytes, ust: UnpackState, size: nat, alignMax: nat)
    requires i < |fmt| && fmt[i] == ' ' as int
    ensures PackOps(Ops(fmt, i), st) == PackOps(Ops(fmt, i + 1), st)
    ensures UnpackOps(Ops(fmt, i), src, ust) == UnpackOps(Ops(fmt, i + 1), src, ust)
    ensures SizeOps(Ops(fmt, i), size, alignMax) == SizeOps(Ops(fmt, i + 1), size, alignMax)
  {
    hide Ops, PackOps, UnpackOps, SizeOps, Onto;
    ReadsBlankAndPad(fmt, i);
    PackOne(fmt, i, i + 1, Blank, st);
    UnpackOne(fmt, i, i + 1, Blank, src, ust);
    SizeOne(fmt, i, i + 1, Blank, size, alignMax);
  }

  /** `x` is one zero byte, whatever it is on reading. */
  lemma PadPacks(fmt: bytes, i: nat, st: PackState)
    requires i < |fmt| && fmt[i] == 'x' as int
    ensures PackOps(Ops(fmt, i), st) ==
            if |st.out| >= 4096 then Err(TooLong) else PackOps(Ops(fmt, i + 1), st.(out := st.out + [0]))
  {
    hide Ops, PackOps;
    ReadsBlankAndPad(fmt, i);
    PackOne(fmt, i, i + 1, Pad, st);
  }

  lemma PadUnpacks(fmt: bytes, i: nat, src: bytes, st: UnpackState, size: nat, alignMax: nat)
    requires i < |fmt| && fmt[i] == 'x' as int
    ensures UnpackOps(Ops(fmt, i), src, st) ==
            if st.pos >= |src| then Err(OutOfString) else UnpackOps(Ops(fmt, i + 1), src, st.(pos := st.pos + 1))
    ensures SizeOps(Ops(fmt, i), size, alignMax) == SizeOps(Ops(fmt, i + 1), size + 1, alignMax)
  {
    hide Ops, UnpackOps, SizeOps, Onto;
    ReadsBlankAndPad(fmt, i);
    UnpackOne(fmt, i, i + 1, Pad, src, st);
    SizeOne(fmt, i, i + 1, Pad, size, alignMax);
  }

  lemma ReadsBlankAndPad(fmt: bytes, i: nat)
    requires i < |fmt|
    ensures fmt[i] == ' ' as int ==> Ops(fmt, i) == [Blank] + Ops(fmt, i + 1)
    ensures fmt[i] == 'x' as int ==> Ops(fmt, i) == [Pad] + Ops(fmt, i + 1)
  {}

  /** `X` aligns as the option behind it would. */
  lemma AlignLike(fmt: bytes, i: nat, e: nat, size: nat, signed: bool, st: PackState, src: bytes, ust: UnpackState,
                  n: nat, alignMax: nat)
    requires i < |fmt| && fmt[i] == 'X' as int && IntegerAt(fmt, i + 1, e, size, signed)
    requires FixedLetter(fmt[i + 1], size, signed) ==> NumberAt(fmt, i + 2, None, i + 2)
    ensures PackOps(Ops(fmt, i), st) == PackOps(Ops(fmt, e), st.(out := Aligned(st, size)))
    ensures UnpackOps(Ops(fmt, i), src, ust) ==
            UnpackOps(Ops(fmt, e), src, ust.(pos := AlignPos(ust.pos, size, ust.alignMax)))
    ensures SizeOps(Ops(fmt, i), n, alignMax) == SizeOps(Ops(fmt, e), AlignPos(n, size, alignMax), alignMax)
  {
    hide Ops, PackOps, UnpackOps, SizeOps, AlignPos;
    ReadsAlignLike(fmt, i, e, size, signed);
    PackOne(fmt, i, e, AlignTo(size), st);
    UnpackOne(fmt, i, e, AlignTo(size), src, ust);
    SizeOne(fmt, i, e, AlignTo(size), n, alignMax);
  }

  lemma ReadsAlignLike(fmt: bytes, i: nat, e: nat, size: nat, signed: bool)
    requires i < |fmt| && fmt[i] == 'X' as int && IntegerAt(fmt, i + 1, e, size, signed)
    requires FixedLetter(fmt[i + 1], size, signed) ==> NumberAt(fmt, i + 2, None, i + 2)
    ensures Ops(fmt, i) == [AlignTo(size)] + Ops(fmt, e)
  {
    hide NumberAt, NumAt, DigitsEnd;
    if FixedLetter(fmt[i + 1], size, signed) {
      ReadsNumber(fmt, i + 2, None, i + 2);
    } else if NumberAt(fmt, i + 2, Some(size), e) {
      ReadsNumber(fmt, i + 2, Some(size), e);
    } else {
      ReadsNumber(fmt, i + 2, None, e);
    }
  }

  // ----- strings -----

  lemma ReadsChars(fmt: bytes, i: nat, e: nat, n: nat)
    requires i < |fmt| && fmt[i] == 'c' as int && n > 0 && NumberAt(fmt, i + 1, Some(n), e)
    ensures Ops(fmt, i) == [Fixed(n)] + Ops(fmt, e)
  {
    hide NumberAt, NumAt, DigitsEnd;
    ReadsNumber(fmt, i + 1, Some(n), e);
  }

  lemma ReadsZeroEnded(fmt: bytes, i: nat)
    requires i < |fmt| && fmt[i] == 'z' as int
    ensures Ops(fmt, i) == [ZStr] + Ops(fmt, i + 1)
  {}

  /** `c` with a positive number: that many bytes, filled up with zeros. */
  lemma CharsPack(fmt: bytes, i: nat, e: nat, n: nat, st: PackState)
    requires i < |fmt| && fmt[i] == 'c' as int && n > 0 && NumberAt(fmt, i + 1, Some(n), e)
    requires st.args != [] && st.args[0].Str? && |st.out| + n <= 4096
    ensures var b := st.args[0].b;
            var text := if |b| >= n then b[..n] else b + seq(n - |b|, _ => 0);
            PackOps(Ops(fmt, i), st) == PackOps(Ops(fmt, e), st.(out := st.out + text, args := st.args[1..]))
  {
    hide Ops, PackOps;
    ReadsChars(fmt, i, e, n);
    PackOne(fmt, i, e, Fixed(n), st);
  }

  lemma CharsUnpack(fmt: bytes, i: nat, e: nat, n: nat, src: bytes, st: UnpackState)
    requires i < |fmt| && fmt[i] == 'c' as int && n > 0 && NumberAt(fmt, i + 1, Some(n), e)
    requires st.pos + n <= |src| && st.room > 0
    ensures UnpackOps(Ops(fmt, i), src, st) ==
            Onto([Str(src[st.pos..st.pos + n])],
                 UnpackOps(Ops(fmt, e), src, st.(pos := st.pos + n, room := st.room - 1)))
  {
    hide Ops, UnpackOps;
    ReadsChars(fmt, i, e, n);
    UnpackOne(fmt, i, e, Fixed(n), src, st);
  }

  /** `z`: the bytes and a zero. */
  lemma ZeroEndedPacks(fmt: bytes, i: nat, st: PackState)
    requires i < |fmt| && fmt[i] == 'z' as int
    requires st.args != [] && st.args[0].Str? && |st.out| + |st.args[0].b| + 1 <= 4096
    ensures PackOps(Ops(fmt, i), st) ==
            PackOps(Ops(fmt, i + 1), st.(out := st.out + (st.args[0].b + [0]), args := st.args[1..]))
  {
    hide Ops, PackOps;
    ReadsZeroEnded(fmt, i);
    PackOne(fmt, i, i + 1, ZStr, st);
  }

  lemma ZeroEndedUnpacks(fmt: bytes, i: nat, src: bytes, st: UnpackState, e: nat)
    requires i < |fmt| && fmt[i] == 'z' as int && st.room > 0
    requires st.pos <= e < |src| && src[e] == 0 && forall k :: st.pos <= k < e ==> src[k] != 0
    ensures UnpackOps(Ops(fmt, i), src, st) ==
            Onto([Str(src[st.pos..e])], UnpackOps(Ops(fmt, i + 1), src, st.(pos := e + 1, room := st.room - 1)))
  {
    hide Ops, UnpackOps, ZEnd;
    ReadsZeroEnded(fmt, i);
    ZEndAt(src, st.pos, e);
    UnpackOne(fmt, i, i + 1, ZStr, src, st);
  }

  /** `s`: the length, in eight bytes if there is no number or zero, and the bytes. */
  predicate PrefixedAt(fmt: bytes, i: nat, e: nat, size: nat) {
    i < |fmt| && fmt[i] == 's' as int && 1 <= size <= 16 &&
    (NumberAt(fmt, i + 1, Some(size), e) ||
     (size == 8 && (NumberAt(fmt, i + 1, None, e) || NumberAt(fmt, i + 1, Some(0), e))))
  }

  lemma ReadsPrefixed(fmt: bytes, i: nat, e: nat, size: nat)
    requires PrefixedAt(fmt, i, e, size)
    ensures Ops(fmt, i) == [LStr(size)] + Ops(fmt, e)
  {
    hide NumberAt, NumAt, DigitsEnd;
    if NumberAt(fmt, i + 1, Some(size), e) {
      ReadsNumber(fmt, i + 1, Some(size), e);
    } else if NumberAt(fmt, i + 1, None, e) {
      ReadsNumber(fmt, i + 1, None, e);
    } else {
      ReadsNumber(fmt, i + 1, Some(0), e);
    }
  }

  lemma PrefixedPacks(fmt: bytes, i: nat, e: nat, size: nat, st: PackState)
    requires PrefixedAt(fmt, i, e, size) && st.args != [] && st.args[0].Str?
    requires |Aligned(st, size)| + size + |st.args[0].b| <= 4096
    ensures var b := st.args[0].b;
            PackOps(Ops(fmt, i), st) ==
            PackOps(Ops(fmt, e), st.(out := Aligned(st, size) + (Spelled(|b|, size, st.little) + b), args := st.args[1..]))
  {
    hide Ops, PackOps, IntBytes, Spelled, AlignPos, Padded;
    ReadsPrefixed(fmt, i, e, size);
    PackOne(fmt, i, e, LStr(size), st);
    SmallMod(|st.args[0].b|, TWO64);
    BytesAreSpelled(|st.args[0].b|, size, st.little);
  }

  lemma PrefixedUnpacks(fmt: bytes, i: nat, e: nat, size: nat, src: bytes, st: UnpackState, b: bytes)
    requires PrefixedAt(fmt, i, e, size) && st.room > 0 && (st.checks ==> size <= 8)
    requires |src| <= 4096 && (size < 8 ==> |b| < Pow256(size))
    requires var p := AlignPos(st.pos, size, st.alignMax);
             p + size + |b| <= |src| && src[p..p + size] == Spelled(|b|, size, st.little) &&
             src[p + size..p + size + |b|] == b
    ensures UnpackOps(Ops(fmt, i), src, st) ==
            Onto([Str(b)], UnpackOps(Ops(fmt, e), src,
                                     st.(pos := AlignPos(st.pos, size, st.alignMax) + size + |b|, room := st.room - 1)))
  {
    hide Ops, UnpackOps, UnpackStep, Spelled, AlignPos;
    ReadsPrefixed(fmt, i, e, size);
    UnpackOne(fmt, i, e, LStr(size), src, st);
    PrefixReads(size, src, st, b);
  }

  lemma PrefixReads(size: nat, src: bytes, st: UnpackState, b: bytes)
    requires 1 <= size <= 16 && (st.checks ==> size <= 8) && |src| <= 4096 && (size < 8 ==> |b| < Pow256(size))
    requires var p := AlignPos(st.pos, size, st.alignMax);
             p + size + |b| <= |src| && src[p..p + size] == Spelled(|b|, size, st.little) &&
             src[p + size..p + size + |b|] == b
    ensures UnpackStep(LStr(size), src, st) == Yield(Str(b), AlignPos(st.pos, size, st.alignMax) + size + |b|, st)
  {
    hide IntBytes, Spelled, AlignPos, UintOf, Pow2, Pow256;
    BytesAreSpelled(|b|, size, st.little);
    WordWritten(|b|, size, st.little);
    Pow256Is(size);
    if size < 8 {
      SmallMod(|b|, Pow2(8 * size));
    }
  }

  // ----- everything else -----

  /** The bytes that begin an option. */
  predicate Begins(c: byte) {
    c in {' ' as int, '!' as int, '<' as int, '=' as int, '>' as int, 'x' as int, 'X' as int,
          'b' as int, 'B' as int, 'h' as int, 'H' as int, 'i' as int, 'I' as int, 'l' as int, 'L' as int,
          'j' as int, 'J' as int, 'T' as int, 'f' as int, 'd' as int, 'n' as int, 'c' as int, 'z' as int, 's' as int}
  }

  /** Any other byte, an `X` at the end, `c` without a positive number and an integer of more than
      16 bytes or none are errors in all three. */
  lemma BadOptions(fmt: bytes, i: nat, e: nat, n: nat, st: PackState, src: bytes, ust: UnpackState, size: nat, alignMax: nat)
    requires i < |fmt|
    requires !Begins(fmt[i]) || (fmt[i] == 'X' as int && i + 1 == |fmt|) ||
             (fmt[i] == 'c' as int && (NumberAt(fmt, i + 1, None, e) || NumberAt(fmt, i + 1, Some(0), e))) ||
             ((fmt[i] == 'i' as int || fmt[i] == 'I' as int) && (n == 0 || n > 16) && NumberAt(fmt, i + 1, Some(n), e))
    ensures PackOps(Ops(fmt, i), st) == Err(InvalidFormat)
    ensures UnpackOps(Ops(fmt, i), src, ust) == Err(InvalidFormat)
    ensures SizeOps(Ops(fmt, i), size, alignMax) == Err(InvalidFormat)
  {
    ReadsBad(fmt, i, e, n);
  }

  lemma ReadsBad(fmt: bytes, i: nat, e: nat, n: nat)
    requires i < |fmt|
    requires !Begins(fmt[i]) || (fmt[i] == 'X' as int && i + 1 == |fmt|) ||
             (fmt[i] == 'c' as int && (NumberAt(fmt, i + 1, None, e) || NumberAt(fmt, i + 1, Some(0), e))) ||
             ((fmt[i] == 'i' as int || fmt[i] == 'I' as int) && (n == 0 || n > 16) && NumberAt(fmt, i + 1, Some(n), e))
    ensures Ops(fmt, i) == [Bad]
  {
    hide NumberAt, NumAt, DigitsEnd;
    if fmt[i] == 'c' as int {
      if NumberAt(fmt, i + 1, None, e) {
        ReadsNumber(fmt, i + 1, None, e);
      } else {
        ReadsNumber(fmt, i + 1, Some(0), e);
      }
    } else if fmt[i] == 'i' as int || fmt[i] == 'I' as int {
      ReadsNumber(fmt, i + 1, Some(n), e);
    }
  }

  /** The sizes of the floats: `f` four, `d` and `n` eight. */
  lemma RealSizes(fmt: bytes, i: nat, size: nat, alignMax: nat)
    requires i < |fmt| && (fmt[i] == 'f' as int || fmt[i] == 'd' as int || fmt[i] == 'n' as int)
    ensures var n := if fmt[i] == 'f' as int then 4 else 8;
            SizeOps(Ops(fmt, i), size, alignMax) == SizeOps(Ops(fmt, i + 1), AlignPos(size, n, alignMax) + n, alignMax)
  {
    hide Ops, SizeOps, AlignPos;
    ReadsReal(fmt, i);
    SizeOne(fmt, i, i + 1, Real(if fmt[i] == 'f' as int then 4 else 8), size, alignMax);
  }

  lemma ReadsReal(fmt: bytes, i: nat)
    requires i < |fmt| && (fmt[i] == 'f' as int || fmt[i] == 'd' as int || fmt[i] == 'n' as int)
    ensures Ops(fmt, i) == [Real(if fmt[i] == 'f' as int then 4 else 8)] + Ops(fmt, i + 1)
  {}

  /** `c` has its number as size; strings of any length have none. */
  lemma StringSizes(fmt: bytes, i: nat, e: nat, n: nat, size: nat, alignMax: nat)
    requires i < |fmt|
    ensures fmt[i] == 'c' as int && n > 0 && NumberAt(fmt, i + 1, Some(n), e) ==>
              SizeOps(Ops(fmt, i), size, alignMax) == SizeOps(Ops(fmt, e), size + n, alignMax)
    ensures fmt[i] == 'z' as int || (n > 0 && PrefixedAt(fmt, i, e, n)) ==>
              SizeOps(Ops(fmt, i), size, alignMax) == Err(VariableLength)
  {
    hide Ops, SizeOps, NumberAt, PrefixedAt;
    if fmt[i] == 'c' as int && n > 0 && NumberAt(fmt, i + 1, Some(n), e) {
      ReadsChars(fmt, i, e, n);
      SizeOne(fmt, i, e, Fixed(n), size, alignMax);
    }
    if fmt[i] == 'z' as int {
      ReadsZeroEnded(fmt, i);
      SizeOne(fmt, i, i + 1, ZStr, size, alignMax);
    }
    if n > 0 && PrefixedAt(fmt, i, e, n) {
      ReadsPrefixed(fmt, i, e, n);
      SizeOne(fmt, i, e, LStr(n), size, alignMax);
    }
  }
}
