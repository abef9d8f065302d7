/** `string.pack`, `string.packsize` and `string.unpack` over the same format language. */
module PackCodec {
  import opened Core
  import opened PackInts
  import opened PackFormat

  const CAP: nat := 4096

  /** Entries of the interpreter's value stack. */
  const STACK_CAP: nat := 128

  datatype Arg = Num(v: i64) | Str(b: bytes) | Other

  /** `Panic` is an aborted call; `Unmodelled` marks the floating-point options. */
  datatype Error =
    | InvalidFormat | MissingArg | NumberExpected | StringExpected
    | TooLong | VariableLength | OutOfString | BadPosition | StackFull | Panic | Unmodelled

  // ----- packing, as a function -----

  datatype PackState = PackState(out: bytes, args: seq<Arg>, little: bool, alignMax: nat)

  function Padded(o: bytes, n: nat): (r: bytes)
    ensures |o| <= n ==> |r| == n && o <= r
  {
    if |o| >= n then o else o + seq(n - |o|, _ => 0)
  }

  function Aligned(st: PackState, size: nat): bytes {
    Padded(st.out, AlignPos(|st.out|, size, st.alignMax))
  }

  /** `b` cut, or filled up with zeros, to `n` bytes. */
  function Cut(b: bytes, n: nat): (r: bytes)
    ensures |r| == n
  {
    if |b| >= n then b[..n] else b + seq(n - |b|, _ => 0)
  }

  /** A length, written as a 64-bit integer. */
  function LenBytes(n: nat, size: nat, little: bool): bytes {
    IntBytes(ToI64(n % TWO64), size, little)
  }

  function PackStep(op: Op, st: PackState): Result<PackState, Error> {
    match op
    case Endian(little) => Ok(st.(little := little))
    case MaxAlign(n) => Ok(st.(alignMax := n))
    case Blank => Ok(st)
    case Pad => if |st.out| >= CAP then Err(TooLong) else Ok(st.(out := st.out + [0]))
    case AlignTo(size) => Ok(st.(out := Aligned(st, size)))
    case Int(size, _) =>
      if st.args == [] then Err(MissingArg)
      else if !st.args[0].Num? then Err(NumberExpected)
      else if |Aligned(st, size)| + size > CAP then Err(TooLong)
      else Ok(st.(out := Aligned(st, size) + IntBytes(st.args[0].v, size, st.little), args := st.args[1..]))
    case Real(_) => Err(Unmodelled)
    case Fixed(n) =>
      if st.args == [] then Err(MissingArg)
      else if !st.args[0].Str? then Err(StringExpected)
      else if |st.out| + n > CAP then Err(TooLong)
      else Ok(st.(out := st.out + Cut(st.args[0].b, n), args := st.args[1..]))
    case ZStr =>
      if st.args == [] then Err(MissingArg)
      else if !st.args[0].Str? then Err(StringExpected)
      else if |st.out| + |st.args[0].b| + 1 > CAP then Err(TooLong)
      else Ok(st.(out := st.out + (st.args[0].b + [0]), args := st.args[1..]))
    case LStr(size) =>
      if size > 16 then Err(InvalidFormat)
      else if st.args == [] then Err(MissingArg)
      else if !st.args[0].Str? then Err(StringExpected)
      else
        var b := st.args[0].b;
        if |Aligned(st, size)| + size + |b| > CAP then Err(TooLong)
        else Ok(st.(out := Aligned(st, size) + (LenBytes(|b|, size, st.little) + b), args := st.args[1..]))
    case Bad => Err(InvalidFormat)
  }

  /** A position moved past the buffer by alignment alone makes the final slice abort. */
  function PackOps(ops: seq<Op>, st: PackState): Result<bytes, Error> {
    if ops == [] then if |st.out| > CAP then Err(Panic) else Ok(st.out)
    else
      match PackStep(ops[0], st)
      case Err(e) => Err(e)
      case Ok(st') => PackOps(ops[1..], st')
  }

  // ----- the size, as a function -----

  function SizeStep(op: Op, size: nat, alignMax: nat): Result<(nat, nat), Error> {
    match op
    case Endian(_) => Ok((size, alignMax))
    case MaxAlign(n) => Ok((size, n))
    case Blank => Ok((size, alignMax))
    case Pad => Ok((size + 1, alignMax))
    case AlignTo(n) => Ok((AlignPos(size, n, alignMax), alignMax))
    case Int(n, _) => Ok((AlignPos(size, n, alignMax) + n, alignMax))
    case Real(n) => Ok((AlignPos(size, n, alignMax) + n, alignMax))
    case Fixed(n) => Ok((size + n, alignMax))
    case ZStr => Err(VariableLength)
    case LStr(_) => Err(VariableLength)
    case Bad => Err(InvalidFormat)
  }

  function SizeOps(ops: seq<Op>, size: nat, alignMax: nat): Result<nat, Error>
    decreases |ops|
  {
    if ops == [] then Ok(size)
    else
      match SizeStep(ops[0], size, alignMax)
      case Err(e) => Err(e)
      case Ok((size', alignMax')) => SizeOps(ops[1..], size', alignMax')
  }

  // ----- unpacking, as a function -----

  /** `room` is what is left of the value stack, `checks` whether arithmetic overflow aborts. */
  datatype UnpackState = UnpackState(pos: nat, little: bool, alignMax: nat, room: nat, checks: bool)

  /** The first NUL at or after `pos`, or the end. */
  function ZEnd(src: bytes, pos: nat): (e: nat)
    requires pos <= |src|
    ensures pos <= e <= |src|
    ensures forall k :: pos <= k < e ==> src[k] != 0
    ensures e < |src| ==> src[e] == 0
    decreases |src| - pos
  {
    if pos < |src| && src[pos] != 0 then ZEnd(src, pos + 1) else pos
  }

  /** Pushes the value that was read up to `pos`. */
  function Yield(v: Arg, pos: nat, st: UnpackState): Result<(seq<Arg>, UnpackState), Error> {
    if st.room == 0 then Err(StackFull) else Ok(([v], st.(pos := pos, room := st.room - 1)))
  }

  /** One option: the value it yields, if any, and the new state. */
  function UnpackStep(op: Op, src: bytes, st: UnpackState): Result<(seq<Arg>, UnpackState), Error> {
    match op
    case Endian(little) => Ok(([], st.(little := little)))
    case MaxAlign(n) => Ok(([], st.(alignMax := n)))
    case Blank => Ok(([], st))
    case Pad => if st.pos >= |src| then Err(OutOfString) else Ok(([], st.(pos := st.pos + 1)))
    case AlignTo(size) => Ok(([], st.(pos := AlignPos(st.pos, size, st.alignMax))))
    case Int(size, signed) =>
      var p := AlignPos(st.pos, size, st.alignMax);
      if p + size > |src| then Err(OutOfString)
      else if size < 1 || (st.checks && size > 8) then Err(Panic)
      else Yield(Num(ReadValue(src[p..p + size], st.little, signed)), p + size, st)
    case Real(_) => Err(Unmodelled)
    case Fixed(n) =>
      if st.pos + n > |src| then Err(OutOfString)
      else Yield(Str(src[st.pos..st.pos + n]), st.pos + n, st)
    case ZStr =>
      if st.pos > |src| then Err(Panic)
      else
        var e := ZEnd(src, st.pos);
        Yield(Str(src[st.pos..e]), if e < |src| then e + 1 else e, st)
    case LStr(size) =>
      if size > 16 then Err(InvalidFormat)
      else
        var p := AlignPos(st.pos, size, st.alignMax);
        if p + size > |src| then Err(OutOfString)
        else if st.checks && size > 8 then Err(Panic)
        else
          var q := p + size;
          var len := UintOf(src[p..q], st.little);
          if q + len >= TWO64 then Err(Panic)
          else if q + len > |src| then Err(OutOfString)
          else Yield(Str(src[q..q + len]), q + len, st)
    case Bad => Err(InvalidFormat)
  }

  /** All values, and the 0-based position after the last one, which is pushed like a value. */
  function UnpackOps(ops: seq<Op>, src: bytes, st: UnpackState): Result<(seq<Arg>, nat), Error>
    decreases |ops|
  {
    if ops == [] then if st.room == 0 then Err(StackFull) else Ok(([], st.pos))
    else
      match UnpackStep(ops[0], src, st)
      case Err(e) => Err(e)
      case Ok((vals, st')) =>
        match UnpackOps(ops[1..], src, st')
        case Err(e) => Err(e)
        case Ok((rest, pos)) => Ok((vals + rest, pos))
  }

  // ----- packing into the buffer -----

  /** The buffer holds `o` up to `pos`, and zeros beyond it. */
  ghost predicate Holds(buf: bytes, pos: nat, o: bytes) {
    |buf| == CAP && |o| == pos && forall k :: 0 <= k < CAP ==> buf[k] == if k < pos then o[k] else 0
  }

  lemma HoldsPadded(buf: bytes, pos: nat, o: bytes, n: nat)
    requires Holds(buf, pos, o) && pos <= n
    ensures Holds(buf, n, Padded(o, n))
  {}

  lemma HoldsAppended(buf: bytes, buf': bytes, pos: nat, o: bytes, data: bytes)
    requires Holds(buf, pos, o) && |buf'| == CAP && pos + |data| <= CAP
    requires buf'[pos..pos + |data|] == data
    requires forall k :: 0 <= k < CAP && !(pos <= k < pos + |data|) ==> buf'[k] == buf[k]
    ensures Holds(buf', pos + |data|, o + data)
  {
    forall k | 0 <= k < CAP ensures buf'[k] == if k < pos + |data| then (o + data)[k] else 0 {
      if pos <= k < pos + |data| {
        assert buf'[k] == buf'[pos..pos + |data|][k - pos];
      }
    }
  }

  method PutBytes(out: array<byte>, pos: nat, data: bytes, ghost o: bytes)
    requires Holds(out[..], pos, o) && pos + |data| <= CAP
    modifies out
    ensures Holds(out[..], pos + |data|, o + data)
  {
    ghost var before := out[..];
    for k := 0 to |data|
      invariant forall j :: 0 <= j < k ==> out[pos + j] == data[j]
      invariant forall j :: 0 <= j < CAP && !(pos <= j < pos + k) ==> out[j] == before[j]
    {
      out[pos + k] := data[k];
    }
    assert out[pos..pos + |data|] == data;
    HoldsAppended(before, out[..], pos, o, data);
  }

  method PutInt(out: array<byte>, pos: nat, v: i64, size: nat, little: bool, ghost o: bytes) returns (ok: bool)
    requires Holds(out[..], pos, o)
    modifies out
    ensures ok <==> pos + size <= CAP
    ensures ok ==> Holds(out[..], pos + size, o + IntBytes(v, size, little))
    ensures !ok ==> Holds(out[..], pos, o)
  {
    ghost var before := out[..];
    ok := WriteInt(out, pos, v, size, little);
    if ok {
      HoldsAppended(before, out[..], pos, o, IntBytes(v, size, little));
    }
  }

  /** One option that takes an argument: aligns, checks room, writes. */
  method PackArg(op: Op, out: array<byte>, pos: nat, arg: Arg, little: bool, alignMax: nat, ghost st: PackState)
    returns (r: Result<nat, Error>)
    requires op.Int? || op.Fixed? || op.ZStr? || op.LStr?
    requires Holds(out[..], pos, st.out) && st.args != [] && st.args[0] == arg
    requires st.little == little && st.alignMax == alignMax
    modifies out
    ensures var goal := PackStep(op, st);
            (r.Err? <==> goal.Err?) && (r.Err? ==> r.error == goal.error) &&
            (r.Ok? ==> Holds(out[..], r.value, goal.value.out))
  {
    hide Holds, Padded, AlignPos, IntBytes, Cut;
    HoldsLength(out[..], pos, st.out);
    match op
    case Int(size, signed) =>
      if !arg.Num? {
        return Err(NumberExpected);
      }
      var ok, p := AlignAndPutInt(out, pos, arg.v, size, little, alignMax, st);
      return if ok then Ok(p) else Err(TooLong);
    case Fixed(n) =>
      if !arg.Str? {
        return Err(StringExpected);
      }
      if pos + n > CAP {
        return Err(TooLong);
      }
      PutBytes(out, pos, Cut(arg.b, n), st.out);
      return Ok(pos + n);
    case ZStr =>
      if !arg.Str? {
        return Err(StringExpected);
      }
      if pos + |arg.b| + 1 > CAP {
        return Err(TooLong);
      }
      PutBytes(out, pos, arg.b + [0], st.out);
      return Ok(pos + |arg.b| + 1);
    case LStr(size) =>
      if size > 16 {
        return Err(InvalidFormat);
      }
      if !arg.Str? {
        return Err(StringExpected);
      }
      var ok, p := AlignAndPutInt(out, pos, ToI64(|arg.b| % TWO64), size, little, alignMax, st);
      if !ok || p + |arg.b| > CAP {
        return Err(TooLong);
      }
      PutBytes(out, p, arg.b, Aligned(st, size) + LenBytes(|arg.b|, size, little));
      assert Aligned(st, size) + LenBytes(|arg.b|, size, little) + arg.b
          == Aligned(st, size) + (LenBytes(|arg.b|, size, little) + arg.b);
      return Ok(p + |arg.b|);
  }

  lemma HoldsLength(buf: bytes, pos: nat, o: bytes)
    requires Holds(buf, pos, o)
    ensures |buf| == CAP && |o| == pos
  {}

  method AlignAndPutInt(out: array<byte>, pos: nat, v: i64, size: nat, little: bool, alignMax: nat, ghost st: PackState)
    returns (ok: bool, p: nat)
    requires Holds(out[..], pos, st.out) && st.alignMax == alignMax
    modifies out
    ensures p == |Aligned(st, size)| + size
    ensures ok <==> p <= CAP
    ensures ok ==> Holds(out[..], p, Aligned(st, size) + IntBytes(v, size, little))
  {
    var at := AlignPos(pos, size, alignMax);
    AlignForward(pos, size, alignMax);
    HoldsPadded(out[..], pos, st.out, at);
    hide Padded, AlignPos, IntBytes;
    ok := PutInt(out, at, v, size, little, Aligned(st, size));
    p := at + size;
  }

  /** `string.pack`. */
  method Pack(fmt: bytes, args: seq<Arg>) returns (r: Result<bytes, Error>)
    ensures r == PackOps(Ops(fmt, 0), PackState([], args, true, 1))
  {
    hide PackStep, NextOp;
    var out := new byte[CAP](_ => 0);
    var pos: nat, vi: nat, little, alignMax: nat, i: nat := 0, 0, true, 1, 0;
    ghost var st := PackState([], args, true, 1);
    while i < |fmt|
      invariant vi <= |args|
      invariant Holds(out[..], pos, st.out)
      invariant st.args == args[vi..] && st.little == little && st.alignMax == alignMax
      invariant PackOps(Ops(fmt, i), st) == PackOps(Ops(fmt, 0), PackState([], args, true, 1))
      decreases |fmt| - i
    {
      var op, j := NextOption(fmt, i);
      OpsStep(fmt, i);
      PackOpsStep(Ops(fmt, i), st);
      PackStepPlain(op, st);
      i := j;
      match op {
        case Endian(b) => little := b;
        case MaxAlign(n) => alignMax := n;
        case Blank =>
        case Pad =>
          if pos >= CAP {
            return Err(TooLong);
          }
          PutBytes(out, pos, [0], st.out);
          pos := pos + 1;
        case AlignTo(size) =>
          AlignForward(pos, size, alignMax);
          HoldsPadded(out[..], pos, st.out, AlignPos(pos, size, alignMax));
          pos := AlignPos(pos, size, alignMax);
        case Real(_) => return Err(Unmodelled);
        case Bad => return Err(InvalidFormat);
        case _ =>
          if vi >= |args| {
            return Err(MissingError(op));
          }
          var p := PackArg(op, out, pos, args[vi], little, alignMax, st);
          if p.Err? {
            return Err(p.error);
          }
          pos, vi := p.value, vi + 1;
      }
      st := PackStep(op, st).value;
    }
    assert Ops(fmt, i) == [];
    if pos > CAP {
      return Err(Panic);
    }
    assert out[..pos] == st.out;
    return Ok(out[..pos]);
  }

  /** The size of a length prefix is checked before the argument is asked for. */
  function MissingError(op: Op): Error {
    if op.LStr? && op.size > 16 then InvalidFormat else MissingArg
  }

  lemma OpsStep(fmt: bytes, i: nat)
    requires i < |fmt|
    ensures var (op, j) := NextOp(fmt, i);
            Ops(fmt, i) != [] && Ops(fmt, i)[0] == op && (op != Bad ==> Ops(fmt, i)[1..] == Ops(fmt, j))
  {
    hide NextOp;
  }

  lemma PackOpsStep(ops: seq<Op>, st: PackState)
    requires ops != []
    ensures PackOps(ops, st) ==
            match PackStep(ops[0], st)
            case Err(e) => Err(e)
            case Ok(st') => PackOps(ops[1..], st')
  {}

  /** What an option leaves unchanged, and the options without argument. */
  lemma PackStepPlain(op: Op, st: PackState)
    ensures match op
            case Endian(b) => PackStep(op, st) == Ok(st.(little := b))
            case MaxAlign(n) => PackStep(op, st) == Ok(st.(alignMax := n))
            case Blank => PackStep(op, st) == Ok(st)
            case Pad => PackStep(op, st) == if |st.out| >= CAP then Err(TooLong) else Ok(st.(out := st.out + [0]))
            case AlignTo(size) => PackStep(op, st) == Ok(st.(out := Aligned(st, size)))
            case Real(_) => PackStep(op, st) == Err(Unmodelled)
            case Bad => PackStep(op, st) == Err(InvalidFormat)
            case _ =>
              (st.args == [] ==>
                 PackStep(op, st) == Err(MissingError(op))) &&
              (PackStep(op, st).Ok? ==>
                 st.args != [] && PackStep(op, st).value.(out := st.out) == st.(args := st.args[1..]))
  {}

  /** `string.packsize`. */
  method PackSize(fmt: bytes) returns (r: Result<nat, Error>)
    ensures r == SizeOps(Ops(fmt, 0), 0, 1)
  {
    hide NextOp, SizeOps, Ops, AlignPos;
    var size: nat, alignMax: nat, i: nat := 0, 1, 0;
    while i < |fmt|
      invariant SizeOps(Ops(fmt, i), size, alignMax) == SizeOps(Ops(fmt, 0), 0, 1)
      decreases |fmt| - i
    {
      var op, j := NextOption(fmt, i);
      OpsStep(fmt, i);
      SizeOpsStep(Ops(fmt, i), size, alignMax);
      i := j;
      match op {
        case Endian(_) =>
        case Blank =>
        case MaxAlign(n) => alignMax := n;
        case Pad => size := size + 1;
        case AlignTo(n) => size := AlignPos(size, n, alignMax);
        case Int(n, _) => size := AlignPos(size, n, alignMax) + n;
        case Real(n) => size := AlignPos(size, n, alignMax) + n;
        case Fixed(n) => size := size + n;
        case ZStr => return Err(VariableLength);
        case LStr(_) => return Err(VariableLength);
        case Bad => return Err(InvalidFormat);
      }
    }
    OpsDone(fmt, i);
    SizeOpsDone(size, alignMax);
    return Ok(size);
  }

  lemma OpsDone(fmt: bytes, i: nat)
    ensures i >= |fmt| ==> Ops(fmt, i) == []
  {}

  lemma SizeOpsDone(size: nat, alignMax: nat)
    ensures SizeOps([], size, alignMax) == Ok(size)
  {}

  lemma SizeOpsStep(ops: seq<Op>, size: nat, alignMax: nat)
    requires ops != []
    ensures SizeOps(ops, size, alignMax) ==
            match SizeStep(ops[0], size, alignMax)
            case Err(e) => Err(e)
            case Ok((size', alignMax')) => SizeOps(ops[1..], size', alignMax')
  {
    hide SizeStep;
  }

  /** One option that yields a value. */
  method UnpackArg(op: Op, src: bytes, pos: nat, little: bool, alignMax: nat, room: nat, checks: bool)
    returns (r: Result<(Arg, nat), Error>)
    requires op.Int? || op.Fixed? || op.ZStr? || op.LStr?
    requires op.Int? || op.LStr? ==> op.size >= 1
    ensures var st := UnpackState(pos, little, alignMax, room, checks);
            UnpackStep(op, src, st) ==
            match r
            case Err(e) => Err(e)
            case Ok((val, pos')) => Yield(val, pos', st)
  {
    hide AlignPos, UintOf, ReadValue, ZEnd;
    match op
    case Int(size, signed) =>
      var p := AlignPos(pos, size, alignMax);
      if p + size > |src| {
        return Err(OutOfString);
      }
      var v := ReadInt(src, p, size, little, signed, checks);
      return if v.Panicked? then Err(Panic) else Ok((Num(v.value), p + size));
    case Fixed(n) =>
      if pos + n > |src| {
        return Err(OutOfString);
      }
      return Ok((Str(src[pos..pos + n]), pos + n));
    case ZStr =>
      if pos > |src| {
        return Err(Panic);
      }
      var e := ScanZ(src, pos);
      return Ok((Str(src[pos..e]), if e < |src| then e + 1 else e));
    case LStr(size) =>
      if size > 16 {
        return Err(InvalidFormat);
      }
      var p := AlignPos(pos, size, alignMax);
      if p + size > |src| {
        return Err(OutOfString);
      }
      var len := ReadBytes(src, p, size, little, checks);
      if len.Panicked? || p + size + len.value >= TWO64 {
        return Err(Panic);
      }
      if p + size + len.value > |src| {
        return Err(OutOfString);
      }
      return Ok((Str(src[p + size..p + size + len.value]), p + size + len.value));
  }

  method ScanZ(src: bytes, pos: nat) returns (e: nat)
    requires pos <= |src|
    ensures e == ZEnd(src, pos)
  {
    e := pos;
    while e < |src| && src[e] != 0
      invariant pos <= e <= |src|
      invariant ZEnd(src, e) == ZEnd(src, pos)
    {
      e := e + 1;
    }
  }

  /** `string.unpack`, from the 1-based position `init`, with `room` entries left on the value
      stack; the result ends with the 1-based position after the last value. */
  method Unpack(fmt: bytes, src: bytes, init: i64, room: nat, checks: bool) returns (r: Result<(seq<Arg>, nat), Error>)
    requires room <= STACK_CAP
    ensures |src| > CAP ==> r == Err(TooLong)
    ensures |src| <= CAP && !(1 <= init <= |src| + 1) ==>
              r == Err(if checks && init == -TWO63 then Panic else BadPosition)
    ensures |src| <= CAP && 1 <= init <= |src| + 1 ==>
              r == match UnpackOps(Ops(fmt, 0), src, UnpackState(init - 1, true, 1, room, checks))
                   case Err(e) => Err(e)
                   case Ok((vals, pos)) => Ok((vals, pos + 1))
  {
    hide NextOp, UnpackStep, UnpackOps;
    if |src| > CAP {
      return Err(TooLong);
    }
    if checks && init == -TWO63 {
      return Err(Panic);
    }
    if !(1 <= init <= |src| + 1) {
      return Err(BadPosition);
    }
    var pos: nat, little, alignMax: nat, i: nat := init - 1, true, 1, 0;
    var vals: seq<Arg>, left: nat := [], room;
    ghost var goal := UnpackOps(Ops(fmt, 0), src, UnpackState(pos, true, 1, room, checks));
    UnpackNone(goal);
    while i < |fmt|
      invariant goal == Onto(vals, UnpackOps(Ops(fmt, i), src, UnpackState(pos, little, alignMax, left, checks)))
      decreases |fmt| - i
    {
      var op, j := NextOption(fmt, i);
      ghost var st := UnpackState(pos, little, alignMax, left, checks);
      OpsStep(fmt, i);
      UnpackOpsStep(Ops(fmt, i), src, st);
      UnpackStepPlain(op, src, st);
      IntSizes(fmt, i);
      match op {
        case Endian(b) => little := b;
        case MaxAlign(n) => alignMax := n;
        case Blank =>
        case Pad =>
          if pos >= |src| {
            return Err(OutOfString);
          }
          pos := pos + 1;
        case AlignTo(size) => pos := AlignPos(pos, size, alignMax);
        case Real(_) => return Err(Unmodelled);
        case Bad => return Err(InvalidFormat);
        case _ =>
          var v := UnpackArg(op, src, pos, little, alignMax, left, checks);
          if v.Err? {
            return Err(v.error);
          }
          if left == 0 {
            return Err(StackFull);
          }
          pos, left := v.value.1, left - 1;
          OntoTwice(vals, [v.value.0], UnpackOps(Ops(fmt, j), src, UnpackState(pos, little, alignMax, left, checks)));
          vals := vals + [v.value.0];
      }
      UnpackNone(UnpackOps(Ops(fmt, j), src, UnpackState(pos, little, alignMax, left, checks)));
      i := j;
    }
    UnpackOpsEnd(src, UnpackState(pos, little, alignMax, left, checks));
    if left == 0 {
      return Err(StackFull);
    }
    assert vals + [] == vals;
    return Ok((vals, pos + 1));
  }

  lemma UnpackOpsEnd(src: bytes, st: UnpackState)
    ensures UnpackOps([], src, st) == if st.room == 0 then Err(StackFull) else Ok(([], st.pos))
  {}

  /** The options that yield nothing. */
  lemma UnpackStepPlain(op: Op, src: bytes, st: UnpackState)
    ensures match op
            case Endian(b) => UnpackStep(op, src, st) == Ok(([], st.(little := b)))
            case MaxAlign(n) => UnpackStep(op, src, st) == Ok(([], st.(alignMax := n)))
            case Blank => UnpackStep(op, src, st) == Ok(([], st))
            case Pad =>
              UnpackStep(op, src, st) ==
              (if st.pos >= |src| then Err(OutOfString) else Ok(([], st.(pos := st.pos + 1))))
            case AlignTo(size) =>
              UnpackStep(op, src, st) == Ok(([], st.(pos := AlignPos(st.pos, size, st.alignMax))))
            case Real(_) => UnpackStep(op, src, st) == Err(Unmodelled)
            case Bad => UnpackStep(op, src, st) == Err(InvalidFormat)
            case _ => true
  {}

  function Onto(vals: seq<Arg>, r: Result<(seq<Arg>, nat), Error>): Result<(seq<Arg>, nat), Error> {
    match r
    case Err(e) => Err(e)
    case Ok((rest, pos)) => Ok((vals + rest, pos))
  }

  lemma UnpackNone(r: Result<(seq<Arg>, nat), Error>)
    ensures Onto([], r) == r
  {
    if r.Ok? {
      assert [] + r.value.0 == r.value.0;
    }
  }

  lemma OntoTwice(a: seq<Arg>, b: seq<Arg>, r: Result<(seq<Arg>, nat), Error>)
    ensures Onto(a, Onto(b, r)) == Onto(a + b, r)
  {
    if r.Ok? {
      assert a + (b + r.value.0) == (a + b) + r.value.0;
    }
  }

  lemma UnpackOpsStep(ops: seq<Op>, src: bytes, st: UnpackState)
    requires ops != []
    ensures UnpackOps(ops, src, st) ==
            match UnpackStep(ops[0], src, st)
            case Err(e) => Err(e)
            case Ok((vals, st')) => Onto(vals, UnpackOps(ops[1..], src, st'))
  {
    hide UnpackStep;
  }

  /** Integer options have at least one byte. */
  lemma IntSizes(fmt: bytes, i: nat)
    requires i < |fmt|
    ensures NextOp(fmt, i).0.Int? ==> 1 <= NextOp(fmt, i).0.size <= 16
    ensures NextOp(fmt, i).0.LStr? ==> 1 <= NextOp(fmt, i).0.size
  {}
}
