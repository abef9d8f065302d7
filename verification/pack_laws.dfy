/** The three interpreters of a format agree: `unpack` undoes `pack`, and `packsize` predicts
    the length `pack` produces. */
module PackLaws {
  import opened Core
  import opened Bits
  import opened PackInts
  import opened PackFormat
  import opened PackCodec

  predicate TakesArg(op: Op) {
    op.Int? || op.Fixed? || op.ZStr? || op.LStr?
  }

  /** The argument can be found again in the packed bytes: integers and length prefixes the
      reader's shifts allow, NUL-free `z` strings, `s` strings whose length fits the prefix. */
  predicate Friendly(op: Op, arg: Arg, checks: bool) {
    match op
    case Int(size, _) => 1 <= size && (checks ==> size <= 8)
    case ZStr => arg.Str? ==> 0 !in arg.b
    case LStr(size) => 1 <= size && (checks ==> size <= 8) && (arg.Str? && size < 8 ==> |arg.b| < Pow2(8 * size))
    case _ => true
  }

  /** The argument also fits its option exactly. */
  predicate Faithful(op: Op, arg: Arg, checks: bool) {
    Friendly(op, arg, checks) &&
    match op
    case Int(size, signed) => arg.Num? ==> InRange(arg.v, size, signed)
    case Fixed(n) => arg.Str? ==> |arg.b| == n
    case _ => true
  }

  /** What a friendly argument comes back as: wrapped to the integer size, cut or zero-filled
      to the fixed length, and otherwise unchanged. */
  function ReadBack(op: Op, arg: Arg): Arg
    requires op.Int? ==> op.size >= 1
  {
    match op
    case Int(size, signed) => if arg.Num? then Num(Wrapped(arg.v, size, signed)) else arg
    case Fixed(n) => if arg.Str? then Str(Cut(arg.b, n)) else arg
    case _ => arg
  }

  predicate AllFriendly(ops: seq<Op>, args: seq<Arg>, checks: bool)
    decreases |ops|
  {
    ops == [] ||
    if TakesArg(ops[0]) then args != [] && Friendly(ops[0], args[0], checks) && AllFriendly(ops[1..], args[1..], checks)
    else AllFriendly(ops[1..], args, checks)
  }

  predicate AllFaithful(ops: seq<Op>, args: seq<Arg>, checks: bool)
    decreases |ops|
  {
    ops == [] ||
    if TakesArg(ops[0]) then args != [] && Faithful(ops[0], args[0], checks) && AllFaithful(ops[1..], args[1..], checks)
    else AllFaithful(ops[1..], args, checks)
  }

  /** The number of values a format yields. */
  function Yields(ops: seq<Op>): nat {
    if ops == [] then 0 else (if TakesArg(ops[0]) then 1 else 0) + Yields(ops[1..])
  }

  function Expected(ops: seq<Op>, args: seq<Arg>, checks: bool): seq<Arg>
    requires AllFriendly(ops, args, checks)
    decreases |ops|
  {
    if ops == [] then []
    else if TakesArg(ops[0]) then [ReadBack(ops[0], args[0])] + Expected(ops[1..], args[1..], checks)
    else Expected(ops[1..], args, checks)
  }

  /** The arguments the format consumes. */
  function Consumed(ops: seq<Op>, args: seq<Arg>): seq<Arg>
    decreases |ops|
  {
    if ops == [] then []
    else if TakesArg(ops[0]) then if args == [] then [] else [args[0]] + Consumed(ops[1..], args[1..])
    else Consumed(ops[1..], args)
  }

  function Cursor(st: PackState, room: nat, checks: bool): UnpackState {
    UnpackState(|st.out|, st.little, st.alignMax, room, checks)
  }

  // ----- one option -----

  lemma PackStepGrows(op: Op, st: PackState)
    requires PackStep(op, st).Ok?
    ensures st.out <= PackStep(op, st).value.out
  {
    hide IntBytes, AlignPos, Padded;
    if op.AlignTo? || op.Int? || op.LStr? {
      AlignForward(|st.out|, op.size, st.alignMax);
    }
  }

  lemma {:induction false} PackOpsGrow(ops: seq<Op>, st: PackState)
    requires PackOps(ops, st).Ok?
    ensures st.out <= PackOps(ops, st).value
    ensures |PackOps(ops, st).value| <= CAP
    decreases |ops|
  {
    hide PackStep;
    if ops != [] {
      PackStepGrows(ops[0], st);
      PackOpsGrow(ops[1..], PackStep(ops[0], st).value);
    }
  }

  lemma WrittenAt(head: bytes, data: bytes, f: bytes)
    requires head + data <= f
    ensures |head| + |data| <= |f| && f[|head|..|head| + |data|] == data
  {
    assert f[..|head| + |data|] == head + data;
    SliceOfPrefix(f, |head| + |data|, |head|, |head| + |data|);
  }

  /** The value an option that takes an argument yields on reading back what it wrote. */
  lemma UnpackWritten(op: Op, st: PackState, f: bytes, room: nat, checks: bool)
    requires PackStep(op, st).Ok? && PackStep(op, st).value.out <= f && TakesArg(op) && |f| <= CAP
    requires Friendly(op, st.args[0], checks)
    ensures UnpackStep(op, f, Cursor(st, room, checks)) ==
            Yield(ReadBack(op, st.args[0]), |PackStep(op, st).value.out|, Cursor(st, room, checks))
  {
    match op
    case Int(size, signed) => UnpackWrittenInt(size, signed, st, f, room, checks);
    case Fixed(n) => UnpackWrittenFixed(n, st, f, room, checks);
    case ZStr => UnpackWrittenZ(st, f, room, checks);
    case LStr(size) => UnpackWrittenString(size, st, f, room, checks);
  }

  lemma UnpackWrittenFixed(n: nat, st: PackState, f: bytes, room: nat, checks: bool)
    requires PackStep(Fixed(n), st).Ok? && PackStep(Fixed(n), st).value.out <= f
    ensures UnpackStep(Fixed(n), f, Cursor(st, room, checks)) ==
            Yield(Str(Cut(st.args[0].b, n)), |PackStep(Fixed(n), st).value.out|, Cursor(st, room, checks))
  {
    hide Cut;
    WrittenAt(st.out, Cut(st.args[0].b, n), f);
  }

  lemma UnpackWrittenZ(st: PackState, f: bytes, room: nat, checks: bool)
    requires PackStep(ZStr, st).Ok? && PackStep(ZStr, st).value.out <= f
    requires 0 !in st.args[0].b
    ensures UnpackStep(ZStr, f, Cursor(st, room, checks)) ==
            Yield(st.args[0], |PackStep(ZStr, st).value.out|, Cursor(st, room, checks))
  {
    hide ZEnd;
    var b, p := st.args[0].b, |st.out|;
    var o := PackStep(ZStr, st).value.out;
    assert o == st.out + (b + [0]) == st.out + b + [0];
    WrittenAt(st.out, b, f);
    assert f[p + |b|] == o[p + |b|] == 0;
    forall k | p <= k < p + |b| ensures f[k] != 0 {
      assert f[k] == b[k - p];
    }
    ZEndAt(f, p, p + |b|);
  }

  lemma {:induction false} ZEndAt(src: bytes, pos: nat, e: nat)
    requires pos <= e < |src| && src[e] == 0
    requires forall k :: pos <= k < e ==> src[k] != 0
    ensures ZEnd(src, pos) == e
    decreases e - pos
  {
    if pos < e {
      ZEndAt(src, pos + 1, e);
    }
  }

  lemma UnpackWrittenInt(size: nat, signed: bool, st: PackState, f: bytes, room: nat, checks: bool)
    requires PackStep(Int(size, signed), st).Ok? && PackStep(Int(size, signed), st).value.out <= f
    requires 1 <= size && (checks ==> size <= 8)
    ensures UnpackStep(Int(size, signed), f, Cursor(st, room, checks)) ==
            Yield(Num(Wrapped(st.args[0].v, size, signed)), |PackStep(Int(size, signed), st).value.out|,
                  Cursor(st, room, checks))
  {
    hide IntBytes, AlignPos, ReadValue, Wrapped, Padded;
    var v := st.args[0].v;
    AlignForward(|st.out|, size, st.alignMax);
    WrittenAt(Aligned(st, size), IntBytes(v, size, st.little), f);
    ReadBackInt(v, size, st.little, signed);
  }

  lemma UnpackWrittenString(size: nat, st: PackState, f: bytes, room: nat, checks: bool)
    requires PackStep(LStr(size), st).Ok? && PackStep(LStr(size), st).value.out <= f && |f| <= CAP
    requires Friendly(LStr(size), st.args[0], checks)
    ensures UnpackStep(LStr(size), f, Cursor(st, room, checks)) ==
            Yield(st.args[0], |PackStep(LStr(size), st).value.out|, Cursor(st, room, checks))
  {
    hide IntBytes, AlignPos, UintOf, Pow2, Padded;
    LenReadBack(size, st, f);
    AlignForward(|st.out|, size, st.alignMax);
    if size < 8 {
      SmallMod(|st.args[0].b|, Pow2(8 * size));
    }
    StringWritten(size, st, f);
  }

  lemma StringWritten(size: nat, st: PackState, f: bytes)
    requires PackStep(LStr(size), st).Ok? && PackStep(LStr(size), st).value.out <= f
    ensures var q := AlignPos(|st.out|, size, st.alignMax) + size;
            var b := st.args[0].b;
            q + |b| <= |f| && f[q..q + |b|] == b && |PackStep(LStr(size), st).value.out| == q + |b|
  {
    hide AlignPos;
    AlignForward(|st.out|, size, st.alignMax);
    var b := st.args[0].b;
    var q := AlignPos(|st.out|, size, st.alignMax) + size;
    var o := PackStep(LStr(size), st).value.out;
    var head := Aligned(st, size) + LenBytes(|b|, size, st.little);
    assert o == head + b && |head| == q;
    hide IntBytes, Padded;
    WrittenAt(head, b, f);
  }

  /** The length prefix reads back as the length modulo the prefix's range. */
  lemma LenReadBack(size: nat, st: PackState, f: bytes)
    requires PackStep(LStr(size), st).Ok? && PackStep(LStr(size), st).value.out <= f
    ensures var p := AlignPos(|st.out|, size, st.alignMax);
            var n := |st.args[0].b|;
            p + size + n == |PackStep(LStr(size), st).value.out| &&
            UintOf(f[p..p + size], st.little) == if size >= 8 then n else n % Pow2(8 * size)
  {
    hide PackStep, LenBytes, UintOf, Pow2, AlignPos;
    LenWritten(size, st, f);
    LenBytesValue(|st.args[0].b|, size, st.little);
  }

  lemma LenWritten(size: nat, st: PackState, f: bytes)
    requires PackStep(LStr(size), st).Ok? && PackStep(LStr(size), st).value.out <= f
    ensures st.args != [] && st.args[0].Str? && |st.args[0].b| <= CAP
    ensures var p := AlignPos(|st.out|, size, st.alignMax);
            var n := |st.args[0].b|;
            p + size + n == |PackStep(LStr(size), st).value.out| && f[p..p + size] == LenBytes(n, size, st.little)
  {
    hide IntBytes, AlignPos, UintOf, Pow2;
    AlignForward(|st.out|, size, st.alignMax);
    var b := st.args[0].b;
    var p := AlignPos(|st.out|, size, st.alignMax);
    var o := PackStep(LStr(size), st).value.out;
    var head := Aligned(st, size);
    assert o == head + LenBytes(|b|, size, st.little) + b && |head| == p;
    hide Padded, LenBytes, Aligned;
    WrittenAt(head, LenBytes(|b|, size, st.little), f);
  }

  lemma LenBytesValue(n: nat, size: nat, little: bool)
    requires n <= CAP
    ensures UintOf(LenBytes(n, size, little), little) == if size >= 8 then n else n % Pow2(8 * size)
  {
    hide UintOf, IntBytes, Pow2;
    SmallMod(n, TWO64);
    WordWritten(n, size, little);
  }

  /** An option without argument moves the reader as it moved the writer. */
  lemma UnpackPlain(op: Op, st: PackState, f: bytes, room: nat, checks: bool)
    requires PackStep(op, st).Ok? && PackStep(op, st).value.out <= f && !TakesArg(op)
    ensures UnpackStep(op, f, Cursor(st, room, checks)) == Ok(([], Cursor(PackStep(op, st).value, room, checks)))
    ensures PackStep(op, st).value.args == st.args
  {
    if op.AlignTo? {
      AlignForward(|st.out|, op.size, st.alignMax);
    }
    hide AlignPos;
  }

  // ----- whole formats -----

  /** `unpack` applied to what `pack` produced yields every value, wrapped or cut to its
      option, and ends exactly at the end of the string. */
  lemma {:induction false} UnpackUndoesPack(ops: seq<Op>, st: PackState, room: nat, checks: bool)
    requires PackOps(ops, st).Ok? && AllFriendly(ops, st.args, checks) && Yields(ops) < room
    ensures var f := PackOps(ops, st).value;
            UnpackOps(ops, f, Cursor(st, room, checks)) == Ok((Expected(ops, st.args, checks), |f|))
    decreases |ops|
  {
    hide PackStep, UnpackStep, Friendly, ReadBack;
    var f := PackOps(ops, st).value;
    PackOpsGrow(ops, st);
    if ops != [] {
      var op := ops[0];
      var st' := PackStep(op, st).value;
      PackOpsStep(ops, st);
      PackOpsGrow(ops[1..], st');
      UnpackOpsStep(ops, f, Cursor(st, room, checks));
      if TakesArg(op) {
        PackStepArgs(op, st);
        UnpackWritten(op, st, f, room, checks);
        UnpackUndoesPack(ops[1..], st', room - 1, checks);
      } else {
        UnpackPlain(op, st, f, room, checks);
        UnpackNone(UnpackOps(ops[1..], f, Cursor(st', room, checks)));
        UnpackUndoesPack(ops[1..], st', room, checks);
      }
    }
  }

  lemma PackStepArgs(op: Op, st: PackState)
    requires PackStep(op, st).Ok? && TakesArg(op)
    ensures st.args != []
    ensures PackStep(op, st).value.(out := st.out) == st.(args := st.args[1..])
  {
    PackStepPlain(op, st);
  }

  /** An argument that does not fit its option does not come back. */
  lemma UnfaithfulStep(op: Op, st: PackState, f: bytes, room: nat, checks: bool)
    requires PackStep(op, st).Ok? && PackStep(op, st).value.out <= f && TakesArg(op) && |f| <= CAP
    requires !Faithful(op, st.args[0], checks)
    requires op.Int? || op.LStr? ==> op.size >= 1
    ensures var r := UnpackStep(op, f, Cursor(st, room, checks));
            r.Ok? ==> |r.value.0| == 1 && r.value.0[0] != st.args[0]
  {
    match op
    case Int(size, signed) =>
      if checks ==> size <= 8 {
        UnpackWrittenInt(size, signed, st, f, room, checks);
        WrappedIffInRange(st.args[0].v, size, signed);
        hide UnpackStep, InRange, Wrapped;
      }
    case Fixed(n) =>
    case ZStr => UnfaithfulZ(st, f);
    case LStr(size) => UnfaithfulString(size, st, f, room, checks);
  }

  lemma UnfaithfulString(size: nat, st: PackState, f: bytes, room: nat, checks: bool)
    requires PackStep(LStr(size), st).Ok? && PackStep(LStr(size), st).value.out <= f
    requires size >= 1 && !Faithful(LStr(size), st.args[0], checks)
    ensures var r := UnpackStep(LStr(size), f, Cursor(st, room, checks));
            r.Ok? ==> |r.value.0| == 1 && r.value.0[0] != st.args[0]
  {
    hide Pow2, UintOf, AlignPos, IntBytes, Padded;
    if checks ==> size <= 8 {
      LenReadBack(size, st, f);
      Pow2Positive(8 * size);
      ModShrinks(|st.args[0].b|, Pow2(8 * size));
    }
  }

  lemma ModShrinks(n: nat, m: nat)
    requires n >= m >= 1
    ensures n % m < n
  {}

  lemma UnfaithfulZ(st: PackState, f: bytes)
    requires PackStep(ZStr, st).Ok? && PackStep(ZStr, st).value.out <= f
    requires 0 in st.args[0].b
    ensures f[|st.out|..ZEnd(f, |st.out|)] != st.args[0].b
  {
    var b, p := st.args[0].b, |st.out|;
    var o := PackStep(ZStr, st).value.out;
    assert o == st.out + (b + [0]);
    var k :| 0 <= k < |b| && b[k] == 0;
    assert f[p + k] == o[p + k] == b[k];
    assert ZEnd(f, p) <= p + k;
  }

  lemma Pow2Positive(n: nat)
    ensures Pow2(n) >= 1
  {}

  /** The format was read from bytes: integers and length prefixes have at least one byte. */
  predicate FromFormat(ops: seq<Op>) {
    forall k :: 0 <= k < |ops| ==> (ops[k].Int? || ops[k].LStr? ==> ops[k].size >= 1)
  }

  lemma {:induction false} OpsFromFormat(fmt: bytes, i: nat)
    ensures FromFormat(Ops(fmt, i))
    decreases |fmt| - i
  {
    hide NextOp;
    if i < |fmt| {
      IntSizes(fmt, i);
      if NextOp(fmt, i).0 != Bad {
        OpsFromFormat(fmt, NextOp(fmt, i).1);
      }
    }
  }

  /** The consumed arguments come back unchanged, with the position just past the end, if and
      only if every argument fits its option and the value stack has room for all of them and
      the position. */
  lemma {:induction false} RoundTripIffFaithful(ops: seq<Op>, st: PackState, room: nat, checks: bool)
    requires PackOps(ops, st).Ok? && FromFormat(ops)
    ensures var f := PackOps(ops, st).value;
            UnpackOps(ops, f, Cursor(st, room, checks)) == Ok((Consumed(ops, st.args), |f|)) <==>
            AllFaithful(ops, st.args, checks) && Yields(ops) < room
    decreases |ops|
  {
    hide PackStep, UnpackStep, Friendly, ReadBack, Faithful;
    var f := PackOps(ops, st).value;
    PackOpsGrow(ops, st);
    if ops != [] {
      var st' := PackStep(ops[0], st).value;
      PackOpsStep(ops, st);
      PackOpsGrow(ops[1..], st');
      UnpackOpsStep(ops, f, Cursor(st, room, checks));
      if TakesArg(ops[0]) {
        RoundTripArg(ops, st, room, checks);
        if room > 0 {
          RoundTripIffFaithful(ops[1..], st', room - 1, checks);
        }
      } else {
        UnpackPlain(ops[0], st, f, room, checks);
        UnpackNone(UnpackOps(ops[1..], f, Cursor(st', room, checks)));
        RoundTripIffFaithful(ops[1..], st', room, checks);
      }
    }
  }

  /** The first option's argument comes back iff it fits and there is room for it. */
  lemma RoundTripArg(ops: seq<Op>, st: PackState, room: nat, checks: bool)
    requires ops != [] && TakesArg(ops[0]) && PackOps(ops, st).Ok? && FromFormat(ops)
    ensures PackStep(ops[0], st).Ok? && st.args != []
    ensures PackStep(ops[0], st).value.args == st.args[1..]
    ensures var f := PackOps(ops, st).value;
            var st' := PackStep(ops[0], st).value;
            UnpackOps(ops, f, Cursor(st, room, checks)) == Ok((Consumed(ops, st.args), |f|)) <==>
            Faithful(ops[0], st.args[0], checks) && room > 0 &&
            UnpackOps(ops[1..], f, Cursor(st', room - 1, checks)) == Ok((Consumed(ops[1..], st.args[1..]), |f|))
  {
    hide PackStep, UnpackStep, Friendly, ReadBack, Faithful;
    var f := PackOps(ops, st).value;
    var op := ops[0];
    var st' := PackStep(op, st).value;
    PackOpsStep(ops, st);
    PackOpsGrow(ops, st);
    PackOpsGrow(ops[1..], st');
    UnpackOpsStep(ops, f, Cursor(st, room, checks));
    PackStepArgs(op, st);
    var arg, vals := st.args[0], Consumed(ops[1..], st.args[1..]);
    if !Faithful(op, arg, checks) {
      UnfaithfulStep(op, st, f, room, checks);
      var r := UnpackStep(op, f, Cursor(st, room, checks));
      if r.Ok? {
        assert r.value.0 == [r.value.0[0]];
        FirstDiffers(r.value.0[0], arg, UnpackOps(ops[1..], f, r.value.1), vals, |f|);
      }
    } else {
      FaithfulReadsBack(op, arg, checks);
      UnpackWritten(op, st, f, room, checks);
      if room > 0 {
        OneMore(arg, UnpackOps(ops[1..], f, Cursor(st', room - 1, checks)), vals, |f|);
      }
    }
  }

  lemma FaithfulReadsBack(op: Op, arg: Arg, checks: bool)
    requires Faithful(op, arg, checks)
    ensures Friendly(op, arg, checks) && ReadBack(op, arg) == arg
  {
    if op.Int? && arg.Num? {
      WrappedIffInRange(arg.v, op.size, op.signed);
    }
  }

  lemma OneMore(arg: Arg, rest: Result<(seq<Arg>, nat), Error>, vals: seq<Arg>, n: nat)
    ensures Onto([arg], rest) == Ok(([arg] + vals, n)) <==> rest == Ok((vals, n))
  {
    if rest.Ok? {
      assert ([arg] + rest.value.0)[1..] == rest.value.0;
      assert ([arg] + vals)[1..] == vals;
    }
  }

  lemma FirstDiffers(x: Arg, arg: Arg, rest: Result<(seq<Arg>, nat), Error>, vals: seq<Arg>, n: nat)
    requires x != arg
    ensures Onto([x], rest) != Ok(([arg] + vals, n))
  {
    if rest.Ok? {
      assert ([x] + rest.value.0)[0] != ([arg] + vals)[0];
    }
  }

  // ----- packsize -----

  /** Whenever `pack` succeeds, `packsize` succeeds exactly on the formats without `z` and `s`,
      and then gives the length of the packed string. */
  lemma {:induction false} PackSizeIsPackLength(ops: seq<Op>, st: PackState)
    requires PackOps(ops, st).Ok?
    ensures var size := SizeOps(ops, |st.out|, st.alignMax);
            (size.Ok? <==> forall k :: 0 <= k < |ops| ==> !ops[k].ZStr? && !ops[k].LStr?) &&
            (size.Ok? ==> size.value == |PackOps(ops, st).value|) &&
            (size.Err? ==> size.error == VariableLength)
    decreases |ops|
  {
    hide PackStep, SizeStep;
    if ops != [] {
      var st' := PackStep(ops[0], st).value;
      PackOpsStep(ops, st);
      SizeOpStep(ops[0], st);
      PackSizeIsPackLength(ops[1..], st');
      var tail := ops[1..];
      assert forall k :: 1 <= k < |ops| ==> ops[k] == tail[k - 1];
      assert forall k :: 0 <= k < |tail| ==> tail[k] == ops[k + 1];
    }
  }

  lemma SizeOpStep(op: Op, st: PackState)
    requires PackStep(op, st).Ok?
    ensures SizeStep(op, |st.out|, st.alignMax) ==
            if op.ZStr? || op.LStr? then Err(VariableLength)
            else Ok((|PackStep(op, st).value.out|, PackStep(op, st).value.alignMax))
  {
    hide AlignPos, IntBytes;
    if op.AlignTo? || op.Int? {
      AlignForward(|st.out|, op.size, st.alignMax);
    }
  }

  // ----- the calls -----

  /** `string.unpack(fmt, string.pack(fmt, ...))`. */
  method PackThenUnpack(fmt: bytes, args: seq<Arg>, room: nat, checks: bool)
    returns (p: Result<bytes, Error>, u: Result<(seq<Arg>, nat), Error>)
    requires room <= STACK_CAP
    ensures p.Ok? && AllFriendly(Ops(fmt, 0), args, checks) && Yields(Ops(fmt, 0)) < room ==>
              u == Ok((Expected(Ops(fmt, 0), args, checks), |p.value| + 1))
    ensures p.Ok? ==>
              (u == Ok((Consumed(Ops(fmt, 0), args), |p.value| + 1)) <==>
               AllFaithful(Ops(fmt, 0), args, checks) && Yields(Ops(fmt, 0)) < room)
  {
    p := Pack(fmt, args);
    u := Err(TooLong);
    if p.Ok? {
      var ops, st := Ops(fmt, 0), PackState([], args, true, 1);
      u := Unpack(fmt, p.value, 1, room, checks);
      PackOpsGrow(ops, st);
      OpsFromFormat(fmt, 0);
      RoundTripIffFaithful(ops, st, room, checks);
      if AllFriendly(ops, args, checks) && Yields(ops) < room {
        UnpackUndoesPack(ops, st, room, checks);
      }
    }
  }
}
