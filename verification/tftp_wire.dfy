/** TFTP packets on the wire (RFC 1350, options as in RFC 2347). */
module TftpWire {
  import opened Core
  import opened Wire

  const OP_RRQ: nat := 1
  const OP_DATA: nat := 3
  const OP_ACK: nat := 4
  const OP_OACK: nat := 6

  const DEFAULT_BLKSIZE: nat := 512

  const BLKSIZE: bytes := [98, 108, 107, 115, 105, 122, 101]
  const TSIZE: bytes := [116, 115, 105, 122, 101]
  const OCTET: bytes := [111, 99, 116, 101, 116]

  const MAX_NAME: nat := 128

  // ----- decimal numbers -----

  function DecimalValue(s: bytes): Option<nat> {
    if s == [] then Some(0)
    else
      var n := |s| - 1;
      match DecimalValue(s[..n])
      case None => None
      case Some(v) => if IsDigit(s[n]) then Some(v * 10 + (s[n] - 48)) else None
  }

  function Decimal(n: nat): (s: bytes)
    ensures forall i :: 0 <= i < |s| ==> IsDigit(s[i])
  {
    if n < 10 then [48 + n] else Decimal(n / 10) + [48 + n % 10]
  }

  lemma {:induction false} DecimalRoundTrip(n: nat)
    ensures DecimalValue(Decimal(n)) == Some(n)
  {
    if n < 10 {
      assert Decimal(n)[..0] == [];
    } else {
      var s := Decimal(n / 10);
      assert (s + [48 + n % 10])[..|s|] == s;
      DecimalRoundTrip(n / 10);
    }
  }

  lemma {:induction false} NotDigit(s: bytes, i: nat)
    requires i < |s| && !IsDigit(s[i])
    ensures DecimalValue(s) == None
  {
    if i < |s| - 1 {
      NotDigit(s[..|s| - 1], i);
    }
  }

  /** The range of a machine word. */
  const WORD: nat := 0x1_0000_0000_0000_0000

  /** The number as it is left in a machine word. */
  function WordValue(s: bytes): Option<nat> {
    match DecimalValue(s)
    case None => None
    case Some(v) => Some(v % WORD)
  }

  ghost predicate OverflowsBy(s: bytes, k: nat) {
    k <= |s| && DecimalValue(s[..k]).Some? && DecimalValue(s[..k]).value >= WORD
  }

  /** The digits up to some place exceed a machine word. */
  ghost predicate Overflows(s: bytes) {
    exists k: nat :: OverflowsBy(s, k)
  }

  /** A string of digits. An overflow aborts a build that checks for it. */
  method ParseDecimal(s: bytes, checks: bool) returns (r: Checked<Option<nat>>)
    ensures r.Panicked? <==> checks && Overflows(s)
    ensures r.Returned? ==> r.value == WordValue(s)
  {
    hide DecimalValue;
    DecimalEmpty();
    ghost var exact: nat := 0;
    var result: nat := 0;
    assert s[..0] == [];
    for i := 0 to |s|
      invariant DecimalValue(s[..i]) == Some(exact) && result == exact % WORD
      invariant checks ==> forall k: nat :: k <= i ==> !OverflowsBy(s, k)
    {
      DecimalNext(s, i);
      if !IsDigit(s[i]) {
        NotDigit(s, i);
        forall k | i < k <= |s| ensures !OverflowsBy(s, k) {
          assert s[..k][i] == s[i];
          NotDigit(s[..k], i);
        }
        return Returned(None);
      }
      var d := s[i] - 48;
      WordStep(exact, result, d);
      if checks && result * 10 + d >= WORD {
        assert !OverflowsBy(s, i) && OverflowsBy(s, i + 1);
        return Panicked;
      }
      exact := exact * 10 + d;
      result := (result * 10 % WORD + d) % WORD;
    }
    assert s[..|s|] == s;
    return Returned(Some(result));
  }

  lemma DecimalEmpty()
    ensures DecimalValue([]) == Some(0)
  {}

  lemma DecimalNext(s: bytes, i: nat)
    requires i < |s| && DecimalValue(s[..i]).Some?
    ensures IsDigit(s[i]) ==> DecimalValue(s[..i + 1]) == Some(DecimalValue(s[..i]).value * 10 + (s[i] - 48))
  {
    assert s[..i + 1][..i] == s[..i];
  }

  lemma WordStep(exact: nat, result: nat, d: nat)
    requires result == exact % WORD
    ensures (exact * 10 + d) % WORD == (result * 10 % WORD + d) % WORD
    ensures exact < WORD ==> result == exact
  {
    var q := exact / WORD;
    assert exact * 10 + d == WORD * (10 * q) + (result * 10 + d);
    DropMultiple(result * 10 + d, 10 * q);
    var q' := result * 10 / WORD;
    assert result * 10 + d == WORD * q' + (result * 10 % WORD + d);
    DropMultiple(result * 10 % WORD + d, q');
  }

  lemma DropMultiple(r: nat, q: nat)
    ensures (WORD * q + r) % WORD == r % WORD
  {}

  // ----- DATA and ACK -----

  datatype Data = Data(block: nat, data: bytes)

  function DataPacket(block: nat, data: bytes): bytes
    requires block < 65536
  {
    Be16(OP_DATA) + Be16(block) + data
  }

  method ParseData(p: bytes) returns (r: Option<Data>)
    ensures r.Some? <==> |p| >= 4 && p[..2] == Be16(OP_DATA)
    ensures r.Some? ==> r.value.block < 65536 && DataPacket(r.value.block, r.value.data) == p
  {
    if |p| < 4 {
      return None;
    }
    if FromBe16(p[0], p[1]) != OP_DATA {
      assert p[..2][0] == p[0] && p[..2][1] == p[1];
      return None;
    }
    r := Some(Data(FromBe16(p[2], p[3]), p[4..]));
  }

  /** The packet determines the block number and the data. */
  lemma DataPacketInjective(b: nat, d: bytes, b': nat, d': bytes)
    requires b < 65536 && b' < 65536 && DataPacket(b, d) == DataPacket(b', d')
    ensures b == b' && d == d'
  {
    var p := DataPacket(b, d);
    assert p[2] == b / 256 && p[3] == b % 256 && p[2] == b' / 256 && p[3] == b' % 256;
    assert p[4..] == d && p[4..] == d';
  }

  function AckPacket(block: nat): bytes
    requires block < 65536
  {
    Be16(OP_ACK) + Be16(block)
  }

  method BuildAck(block: nat, buf: array<byte>) returns (n: nat)
    requires block < 65536 && buf.Length >= 4
    modifies buf
    ensures n == 4 && buf[..4] == AckPacket(block) && buf[4..] == old(buf[4..])
  {
    buf[0], buf[1] := OP_ACK / 256, OP_ACK % 256;
    buf[2], buf[3] := block / 256, block % 256;
    return 4;
  }

  // ----- read requests -----

  function RrqPacket(name: bytes): bytes {
    Be16(OP_RRQ) + name + [0] + OCTET + [0]
  }

  /** A file name longer than 128 bytes is cut. */
  function RrqName(filename: bytes): bytes {
    if |filename| <= MAX_NAME then filename else filename[..MAX_NAME]
  }

  method BuildRrq(filename: bytes, buf: array<byte>) returns (n: nat)
    requires buf.Length >= |RrqName(filename)| + 9
    modifies buf
    ensures n <= buf.Length && buf[..n] == RrqPacket(RrqName(filename)) && buf[n..] == old(buf[n..])
  {
    hide RrqName;
    var name := if |filename| <= MAX_NAME then filename else filename[..MAX_NAME];
    assert name == RrqName(filename) by { NameCut(filename); }
    ghost var before := buf[..];
    Put(buf, 0, Be16(OP_RRQ));
    var pos := 2;
    Put(buf, pos, name);
    pos := pos + |name|;
    Put(buf, pos, [0]);
    pos := pos + 1;
    Put(buf, pos, OCTET);
    pos := pos + |OCTET|;
    Put(buf, pos, [0]);
    pos := pos + 1;
    assert buf[pos..] == before[pos..];
    return pos;
  }

  lemma NameCut(filename: bytes)
    ensures RrqName(filename) == if |filename| <= MAX_NAME then filename else filename[..MAX_NAME]
  {
  }

  /** The first NUL at or after `pos`, or the end. */
  function FieldEnd(p: bytes, pos: nat): (e: nat)
    requires pos <= |p|
    ensures pos <= e <= |p| && (e < |p| ==> p[e] == 0) && forall i :: pos <= i < e ==> p[i] != 0
    decreases |p| - pos
  {
    if pos == |p| || p[pos] == 0 then pos else FieldEnd(p, pos + 1)
  }

  /** The file a request names, as a server reads it. */
  function RequestedName(p: bytes): Option<bytes> {
    if |p| < 2 || FromBe16(p[0], p[1]) != OP_RRQ then None
    else
      var e := FieldEnd(p, 2);
      if e == |p| then None else Some(p[2..e])
  }

  lemma RrqRoundTrip(filename: bytes)
    requires 0 !in filename
    ensures RequestedName(RrqPacket(RrqName(filename))) == Some(RrqName(filename))
  {
    var name := RrqName(filename);
    var p := RrqPacket(name);
    assert p[2..2 + |name|] == name && p[2 + |name|] == 0;
    forall i | 2 <= i < 2 + |name| ensures p[i] != 0 {
      assert p[i] == filename[i - 2];
    }
  }

  // ----- option acknowledgements -----

  datatype Opt = Opt(key: bytes, value: bytes)

  /** Keys other than the two known ones, and values that are not numbers, are skipped. */
  function Negotiate(o: Opt, blksize: nat, tsize: nat): (nat, nat) {
    var n := WordValue(o.value);
    if n.None? then (blksize, tsize)
    else if o.key == BLKSIZE then (n.value, tsize)
    else if o.key == TSIZE then (blksize, n.value)
    else (blksize, tsize)
  }

  function NegotiateAll(opts: seq<Opt>, blksize: nat, tsize: nat): (nat, nat) {
    if opts == [] then (blksize, tsize)
    else
      var (b, t) := Negotiate(opts[0], blksize, tsize);
      NegotiateAll(opts[1..], b, t)
  }

  predicate Known(key: bytes) {
    key == BLKSIZE || key == TSIZE
  }

  /** Some option read as a number does not fit a machine word. */
  ghost predicate AnyOverflows(opts: seq<Opt>) {
    opts != [] && ((Known(opts[0].key) && Overflows(opts[0].value)) || AnyOverflows(opts[1..]))
  }

  function OptionBytes(opts: seq<Opt>): bytes {
    if opts == [] then [] else opts[0].key + [0] + opts[0].value + [0] + OptionBytes(opts[1..])
  }

  function OackPacket(opts: seq<Opt>): bytes {
    Be16(OP_OACK) + OptionBytes(opts)
  }

  /** The complete options from `pos` on; a cut-off last one is dropped. */
  function OptionsFrom(p: bytes, pos: nat): seq<Opt>
    requires pos <= |p|
    decreases |p| - pos
  {
    var e := FieldEnd(p, pos);
    if e == |p| then []
    else
      var e' := FieldEnd(p, e + 1);
      if e' == |p| then [] else [Opt(p[pos..e], p[e + 1..e'])] + OptionsFrom(p, e' + 1)
  }

  lemma OptionStep(p: bytes, pos: nat, blksize: nat, tsize: nat)
    requires pos <= |p|
    ensures var e := FieldEnd(p, pos);
            var opts := OptionsFrom(p, pos);
            var result := NegotiateAll(opts, blksize, tsize);
            if e == |p| then result == (blksize, tsize) && !AnyOverflows(opts)
            else
              var e' := FieldEnd(p, e + 1);
              if e' == |p| then result == (blksize, tsize) && !AnyOverflows(opts)
              else
                var o := Opt(p[pos..e], p[e + 1..e']);
                var next := Negotiate(o, blksize, tsize);
                result == NegotiateAll(OptionsFrom(p, e' + 1), next.0, next.1) &&
                (AnyOverflows(opts) <==> (Known(o.key) && Overflows(o.value)) || AnyOverflows(OptionsFrom(p, e' + 1)))
  {
    hide Negotiate, FieldEnd, Known, Overflows;
    var e := FieldEnd(p, pos);
    if e < |p| {
      var e' := FieldEnd(p, e + 1);
      if e' < |p| {
        var o, rest := Opt(p[pos..e], p[e + 1..e']), OptionsFrom(p, e' + 1);
        assert ([o] + rest)[1..] == rest;
      }
    }
  }

  method ParseOack(p: bytes, checks: bool) returns (r: Checked<Option<(nat, nat)>>)
    ensures r.Panicked? <==> checks && |p| >= 2 && p[..2] == Be16(OP_OACK) && AnyOverflows(OptionsFrom(p, 2))
    ensures r.Returned? ==> (r.value.Some? <==> |p| >= 2 && p[..2] == Be16(OP_OACK))
    ensures r.Returned? && r.value.Some? ==> r.value.value == NegotiateAll(OptionsFrom(p, 2), DEFAULT_BLKSIZE, 0)
  {
    hide FieldEnd, WordValue, NegotiateAll, OptionsFrom, Overflows, AnyOverflows;
    if |p| < 2 {
      return Returned(None);
    }
    if FromBe16(p[0], p[1]) != OP_OACK {
      assert p[..2][0] == p[0] && p[..2][1] == p[1];
      return Returned(None);
    }
    assert p[..2] == Be16(OP_OACK);
    var blksize, tsize, pos := DEFAULT_BLKSIZE, 0, 2;
    while pos < |p|
      invariant 2 <= pos <= |p|
      invariant NegotiateAll(OptionsFrom(p, pos), blksize, tsize) == NegotiateAll(OptionsFrom(p, 2), DEFAULT_BLKSIZE, 0)
      invariant checks ==> (AnyOverflows(OptionsFrom(p, pos)) <==> AnyOverflows(OptionsFrom(p, 2)))
    {
      OptionStep(p, pos, blksize, tsize);
      var start := pos;
      pos := NextNul(p, pos);
      if pos >= |p| {
        return Returned(Some((blksize, tsize)));
      }
      var key := p[start..pos];
      pos := pos + 1;
      start := pos;
      pos := NextNul(p, pos);
      if pos >= |p| {
        return Returned(Some((blksize, tsize)));
      }
      var val := p[start..pos];
      pos := pos + 1;
      if key == BLKSIZE {
        var n := ParseDecimal(val, checks);
        if n.Panicked? {
          return Panicked;
        }
        if n.value.Some? {
          blksize := n.value.value;
        }
      } else if key == TSIZE {
        var n := ParseDecimal(val, checks);
        if n.Panicked? {
          return Panicked;
        }
        if n.value.Some? {
          tsize := n.value.value;
        }
      }
    }
    OptionStep(p, pos, blksize, tsize);
    return Returned(Some((blksize, tsize)));
  }

  method NextNul(p: bytes, from: nat) returns (e: nat)
    requires from <= |p|
    ensures e == FieldEnd(p, from)
  {
    e := from;
    while e < |p| && p[e] != 0
      invariant from <= e <= |p| && FieldEnd(p, e) == FieldEnd(p, from)
    {
      e := e + 1;
    }
  }

  predicate NulFree(opts: seq<Opt>) {
    forall i :: 0 <= i < |opts| ==> 0 !in opts[i].key && 0 !in opts[i].value
  }

  /** A field without NUL, and the NUL after it. */
  ghost predicate FieldAt(p: bytes, pos: nat, field: bytes) {
    pos + |field| < |p| && p[pos..pos + |field|] == field && p[pos + |field|] == 0 && 0 !in field
  }

  lemma FieldEndAt(p: bytes, pos: nat, field: bytes)
    requires FieldAt(p, pos, field)
    ensures FieldEnd(p, pos) == pos + |field|
  {
    forall i | pos <= i < pos + |field| ensures p[i] != 0 {
      assert p[i] == field[i - pos];
    }
  }

  lemma OneOption(p: bytes, pos: nat, o: Opt)
    requires FieldAt(p, pos, o.key) && FieldAt(p, pos + |o.key| + 1, o.value)
    ensures OptionsFrom(p, pos) == [o] + OptionsFrom(p, pos + |o.key| + 1 + |o.value| + 1)
  {
    hide FieldEnd;
    FieldEndAt(p, pos, o.key);
    FieldEndAt(p, pos + |o.key| + 1, o.value);
  }

  /** Options read back as they were written. */
  lemma {:induction false} OptionsRoundTrip(pre: bytes, opts: seq<Opt>)
    requires NulFree(opts)
    ensures OptionsFrom(pre + OptionBytes(opts), |pre|) == opts
    decreases |opts|
  {
    hide OptionsFrom, FieldAt;
    var p := pre + OptionBytes(opts);
    if opts == [] {
      assert p == pre;
      NoOption(p);
    } else {
      var o := opts[0];
      var pre' := pre + o.key + [0] + o.value + [0];
      assert p == pre' + OptionBytes(opts[1..]);
      OptionFields(p, pre, o, OptionBytes(opts[1..]));
      OneOption(p, |pre|, o);
      OptionsRoundTrip(pre', opts[1..]);
    }
  }

  lemma OptionFields(p: bytes, pre: bytes, o: Opt, rest: bytes)
    requires p == pre + o.key + [0] + o.value + [0] + rest && 0 !in o.key && 0 !in o.value
    ensures FieldAt(p, |pre|, o.key) && FieldAt(p, |pre| + |o.key| + 1, o.value)
  {
  }

  lemma NoOption(p: bytes)
    ensures OptionsFrom(p, |p|) == []
  {
  }

  /** An acknowledgement of a block size gives that block size. */
  lemma OackRoundTrip(blksize: nat)
    requires blksize < WORD
    ensures var opts := [Opt(BLKSIZE, Decimal(blksize))];
            OptionsFrom(OackPacket(opts), 2) == opts && NegotiateAll(opts, DEFAULT_BLKSIZE, 0) == (blksize, 0)
  {
    hide DecimalValue, Decimal, OptionsFrom, OptionBytes;
    var opts := [Opt(BLKSIZE, Decimal(blksize))];
    NoNulInDigits(blksize);
    OptionsRoundTrip(Be16(OP_OACK), opts);
    DecimalRoundTrip(blksize);
    SmallWord(blksize);
    assert opts[1..] == [];
  }

  lemma NoNulInDigits(n: nat)
    ensures 0 !in Decimal(n) && 0 !in BLKSIZE
  {
    hide Decimal;
  }

  lemma SmallWord(n: nat)
    requires n < WORD
    ensures n % WORD == n
  {}
}
