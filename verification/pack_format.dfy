/** The format language of `string.pack`: one option at a time. */
module PackFormat {
  import opened Core

  datatype Op =
    | Endian(little: bool)
    | MaxAlign(n: nat)
    | Blank
    | Pad
    | AlignTo(size: nat)
    | Int(size: nat, signed: bool)
    | Real(size: nat)
    | Fixed(n: nat)
    | ZStr
    | LStr(size: nat)
    | Bad

  /** The end of the run of digits at `i`. */
  function DigitsEnd(fmt: bytes, i: nat): (e: nat)
    ensures i <= e && (i <= |fmt| ==> e <= |fmt|)
    decreases |fmt| - i
  {
    if i < |fmt| && IsDigit(fmt[i]) then DigitsEnd(fmt, i + 1) else i
  }

  function DigitsValue(fmt: bytes, i: nat, acc: nat): nat
    decreases |fmt| - i
  {
    if i < |fmt| && IsDigit(fmt[i]) then DigitsValue(fmt, i + 1, acc * 10 + (fmt[i] - 0x30)) else acc
  }

  function NumAt(fmt: bytes, i: nat): Option<nat> {
    if DigitsEnd(fmt, i) == i then None else Some(DigitsValue(fmt, i, 0))
  }

  function GetOr(n: Option<nat>, default: nat): nat {
    if n.Some? then n.value else default
  }

  /** The alignment an `X` takes from the option letter after it. */
  function OptionSize(op: byte, n: Option<nat>): nat {
    if op == 0x62 || op == 0x42 || op == 0x78 then 1                     // b B x
    else if op == 0x68 || op == 0x48 then 2                              // h H
    else if op == 0x69 || op == 0x49 then GetOr(n, 4)                    // i I
    else if op == 0x66 then 4                                            // f
    else if op in {0x6C, 0x4C, 0x6A, 0x4A, 0x54, 0x64, 0x6E} then 8      // l L j J T d n
    else if op == 0x63 then GetOr(n, 0)                                  // c
    else 0
  }

  /** Options with no argument of their own. */
  function PlainOp(c: byte): Op {
    if c == 0x3C || c == 0x3D then Endian(true)                          // < =
    else if c == 0x3E then Endian(false)                                 // >
    else if c == 0x20 then Blank
    else if c == 0x78 then Pad                                           // x
    else if c == 0x62 || c == 0x42 then Int(1, c == 0x62)                // b B
    else if c == 0x68 || c == 0x48 then Int(2, c == 0x68)                // h H
    else if c == 0x6C || c == 0x4C then Int(8, c == 0x6C)                // l L
    else if c == 0x6A || c == 0x4A then Int(8, c == 0x6A)                // j J
    else if c == 0x54 then Int(8, false)                                 // T
    else if c == 0x66 then Real(4)                                       // f
    else if c == 0x64 || c == 0x6E then Real(8)                          // d n
    else if c == 0x7A then ZStr                                          // z
    else Bad
  }

  /** Options that read a number. */
  function NumberedOp(c: byte, n: Option<nat>): Op {
    if c == 0x21 then MaxAlign(if n.Some? && n.value > 0 then n.value else 16)                       // !
    else if c == 0x69 || c == 0x49 then                                                             // i I
      if 1 <= GetOr(n, 4) <= 16 then Int(GetOr(n, 4), c == 0x69) else Bad
    else if c == 0x63 then if GetOr(n, 0) >= 1 then Fixed(n.value) else Bad                          // c
    else if c == 0x73 then LStr(if GetOr(n, 0) == 0 then 8 else n.value)                             // s
    else Bad
  }

  predicate IsNumbered(c: byte) { c in {0x21, 0x69, 0x49, 0x63, 0x73} }

  /** The option at `i` and the position after it. */
  function NextOp(fmt: bytes, i: nat): (r: (Op, nat))
    requires i < |fmt|
    ensures i < r.1 <= |fmt|
  {
    var c := fmt[i];
    if c == 0x58 then                                                                               // X
      if i + 1 >= |fmt| then (Bad, i + 1)
      else (AlignTo(OptionSize(fmt[i + 1], NumAt(fmt, i + 2))), DigitsEnd(fmt, i + 2))
    else if IsNumbered(c) then (NumberedOp(c, NumAt(fmt, i + 1)), DigitsEnd(fmt, i + 1))
    else (PlainOp(c), i + 1)
  }

  /** The options of a format up to the first one that is malformed. */
  function Ops(fmt: bytes, i: nat): seq<Op>
    decreases |fmt| - i
  {
    if i >= |fmt| then []
    else
      var (op, j) := NextOp(fmt, i);
      if op == Bad then [Bad] else [op] + Ops(fmt, j)
  }

  method ParseFmtNum(fmt: bytes, i: nat) returns (n: Option<nat>, j: nat)
    ensures n == NumAt(fmt, i) && j == DigitsEnd(fmt, i)
  {
    j := i;
    var v: nat := 0;
    var any := false;
    while j < |fmt| && IsDigit(fmt[j])
      invariant i <= j && (any <==> i < j)
      invariant DigitsEnd(fmt, j) == DigitsEnd(fmt, i)
      invariant DigitsValue(fmt, j, v) == DigitsValue(fmt, i, 0)
      decreases |fmt| - j
    {
      v := v * 10 + (fmt[j] - 0x30);
      j := j + 1;
      any := true;
    }
    n := if any then Some(v) else None;
  }

  method NextOption(fmt: bytes, i: nat) returns (op: Op, j: nat)
    requires i < |fmt|
    ensures (op, j) == NextOp(fmt, i)
  {
    var c := fmt[i];
    if c == 0x58 {
      if i + 1 >= |fmt| {
        return Bad, i + 1;
      }
      var n;
      n, j := ParseFmtNum(fmt, i + 2);
      op := AlignTo(OptionSize(fmt[i + 1], n));
    } else if IsNumbered(c) {
      var n;
      n, j := ParseFmtNum(fmt, i + 1);
      op := NumberedOp(c, n);
    } else {
      op, j := PlainOp(c), i + 1;
    }
  }
}
