/** The item language of the pattern engine: byte classes, bracket sets, quantifiers, and
    the reading of a pattern's bytes into a list of items. */
module PatternItems {
  import opened Core

  const PERCENT: byte := 0x25
  const LBRACKET: byte := 0x5B
  const RBRACKET: byte := 0x5D
  const LPAREN: byte := 0x28
  const RPAREN: byte := 0x29
  const CARET: byte := 0x5E
  const DOLLAR: byte := 0x24
  const DOT: byte := 0x2E
  const STAR: byte := 0x2A
  const PLUS: byte := 0x2B
  const DASH: byte := 0x2D
  const QUESTION: byte := 0x3F

  // ----- byte classes -----

  predicate IsUpper(c: byte) { 0x41 <= c <= 0x5A }
  predicate IsLower(c: byte) { 0x61 <= c <= 0x7A }
  predicate IsAlpha(c: byte) { IsUpper(c) || IsLower(c) }
  predicate IsHex(c: byte) { IsDigit(c) || 0x41 <= c <= 0x46 || 0x61 <= c <= 0x66 }
  predicate IsSpace(c: byte) { c == 0x20 || c == 0x09 || c == 0x0A || c == 0x0C || c == 0x0D }
  predicate IsPunct(c: byte) {
    0x21 <= c <= 0x2F || 0x3A <= c <= 0x40 || 0x5B <= c <= 0x60 || 0x7B <= c <= 0x7E
  }

  /** `%A` is "upper case" here, and only the listed letters are classes. */
  predicate ClassMatch(c: byte, cls: byte) {
    if cls == 0x61 then IsAlpha(c)                            // a
    else if cls == 0x41 then IsUpper(c)                       // A
    else if cls == 0x63 then c < 0x20 || c == 0x7F            // c
    else if cls == 0x64 then IsDigit(c)                       // d
    else if cls == 0x6C then IsLower(c)                       // l
    else if cls == 0x70 then IsPunct(c)                       // p
    else if cls == 0x73 then IsSpace(c)                       // s
    else if cls == 0x75 then IsUpper(c)                       // u
    else if cls == 0x77 then IsAlpha(c) || IsDigit(c)         // w
    else if cls == 0x78 then IsHex(c)                         // x
    else c == cls
  }

  /** An upper-case letter does not stand for the complement of the lower-case letter's class: byte
      255 is in neither. On a byte it happens to do so exactly where the class and the letter itself
      differ, for `A` exactly on lower-case letters. */
  lemma UpperIsNoComplement(cls: byte, c: byte)
    requires cls in {0x61, 0x63, 0x64, 0x6C, 0x70, 0x73, 0x75, 0x77, 0x78}
    ensures !ClassMatch(0xFF, cls) && !ClassMatch(0xFF, cls - 0x20)
    ensures (ClassMatch(c, cls - 0x20) <==> !ClassMatch(c, cls)) <==>
            if cls == 0x61 then IsLower(c) else ClassMatch(c, cls) != (c == cls - 0x20)
  {}

  // ----- bracket sets -----

  /** One element of a bracket set; class 0 stands for "literal". */
  datatype SetElem =
    | One(lo: byte, loCls: byte)
    | Range(lo: byte, loCls: byte, hi: byte, hiCls: byte)

  predicate Accepts(e: SetElem, c: byte) {
    match e
    case One(lo, loCls) => if loCls != 0 then ClassMatch(c, loCls) else c == lo
    case Range(lo, loCls, hi, hiCls) =>
      if loCls != 0 && hiCls != 0 then ClassMatch(c, loCls) || ClassMatch(c, hiCls)
      else lo <= c <= hi || (loCls != 0 && ClassMatch(c, loCls)) || (hiCls != 0 && ClassMatch(c, hiCls))
  }

  ghost predicate InSet(es: seq<SetElem>, c: byte) {
    exists k :: 0 <= k < |es| && Accepts(es[k], c)
  }

  /** Literal byte, class byte and width of the set element at `i`. */
  function BracketElem(p: bytes, i: nat): (byte, byte, nat) {
    if i >= |p| then (0, 0, 0)
    else if p[i] == PERCENT && i + 1 < |p| then (0, p[i + 1], 2)
    else (p[i], 0, 1)
  }

  predicate IsRange(p: bytes, j: nat) {
    j + 1 < |p| && p[j] == DASH && p[j + 1] != RBRACKET
  }

  /** Where the escape-skipping scan for the closing bracket stops. */
  function BracketStop(p: bytes, j: nat): (e: nat)
    ensures j <= |p| ==> j <= e <= |p|
    ensures e < |p| ==> p[e] == RBRACKET
    decreases |p| - j
  {
    if j < |p| && p[j] != RBRACKET then
      BracketStop(p, if p[j] == PERCENT && j + 1 < |p| then j + 2 else j + 1)
    else j
  }

  function ElemAt(p: bytes, j: nat): SetElem {
    var (lo, loCls, n) := BracketElem(p, j);
    if IsRange(p, j + n) then
      var (hi, hiCls, _) := BracketElem(p, j + n + 1);
      Range(lo, loCls, hi, hiCls)
    else One(lo, loCls)
  }

  function NextElem(p: bytes, j: nat): (k: nat)
    ensures j < |p| ==> j < k <= |p|
  {
    var n := BracketElem(p, j).2;
    if IsRange(p, j + n) then j + n + 1 + BracketElem(p, j + n + 1).2 else j + n
  }

  /** The set elements read from `j` up to the closing bracket. */
  function SetElems(p: bytes, j: nat): seq<SetElem>
    decreases |p| - j
  {
    if j >= |p| || p[j] == RBRACKET then [] else [ElemAt(p, j)] + SetElems(p, NextElem(p, j))
  }

  /** Where reading set elements stops. */
  function SetStop(p: bytes, j: nat): nat
    decreases |p| - j
  {
    if j >= |p| || p[j] == RBRACKET then j else SetStop(p, NextElem(p, j))
  }

  lemma BracketStopNext(p: bytes, j: nat)
    requires j < |p| && p[j] != RBRACKET
    ensures BracketStop(p, j) == BracketStop(p, NextElem(p, j))
  {
    var n := BracketElem(p, j).2;
    assert BracketStop(p, j) == BracketStop(p, j + n);
    if IsRange(p, j + n) {
      assert BracketStop(p, j + n) == BracketStop(p, j + n + 1);
      assert BracketStop(p, j + n + 1) == BracketStop(p, j + n + 1 + BracketElem(p, j + n + 1).2);
    }
  }

  /** Reading set elements, ranges included, ends exactly where the item-size scan ends. */
  lemma {:induction false} SetStopIsBracketStop(p: bytes, j: nat)
    ensures SetStop(p, j) == BracketStop(p, j)
    decreases |p| - j
  {
    if j < |p| && p[j] != RBRACKET {
      BracketStopNext(p, j);
      SetStopIsBracketStop(p, NextElem(p, j));
    }
  }

  // ----- items -----

  datatype Unit =
    | AnyByte
    | Class(cls: byte)
    | Set(negated: bool, elems: seq<SetElem>)
    | Literal(b: byte)
    | Anchor    // a `^` after the first byte: matches the empty string
    | Broken    // a `%` that ends the pattern: matches nothing

  datatype Quant = Once | Opt | Star | Plus | Lazy

  /** A pattern as a list of items. `AtEnd` is a `$`: whatever follows it is ignored. */
  datatype Pat =
    | Done
    | AtEnd
    | Unclosed
    | Group(inner: Pat, rest: Pat)
    | Then(u: Unit, q: Quant, rest: Pat)

  ghost predicate UnitAccepts(u: Unit, c: byte) {
    match u
    case AnyByte => true
    case Class(cls) => ClassMatch(c, cls)
    case Set(negated, elems) => InSet(elems, c) != negated
    case Literal(b) => b == c
    case Anchor => false
    case Broken => false
  }

  /** Bytes one use of `u` consumes at `si`, or None when `u` does not match there. */
  ghost function Take(u: Unit, s: bytes, si: nat): (r: Option<nat>)
    ensures r == Some(0) <==> u.Anchor?
    ensures r.Some? && r.value != 0 ==> r.value == 1 && si < |s|
  {
    if u.Anchor? then Some(0)
    else if si < |s| && UnitAccepts(u, s[si]) then Some(1)
    else None
  }

  function ItemLen(p: bytes, pi: nat): (n: nat)
    ensures n == 0 <==> pi >= |p|
  {
    if pi >= |p| then 0
    else if p[pi] == PERCENT then 2
    else if p[pi] == LBRACKET then
      var j := BracketStop(p, pi + 1);
      if j < |p| then j + 1 - pi else |p| - pi
    else 1
  }

  function QuantOf(b: byte): Quant {
    if b == STAR then Star else if b == PLUS then Plus
    else if b == DASH then Lazy else if b == QUESTION then Opt else Once
  }

  function QuantAt(p: bytes, k: nat): Quant {
    if k < |p| then QuantOf(p[k]) else Once
  }

  function UnitAt(p: bytes, pi: nat): Unit
    requires pi < |p|
  {
    var ch := p[pi];
    if ch == DOT then AnyByte
    else if ch == PERCENT then if pi + 1 >= |p| then Broken else Class(p[pi + 1])
    else if ch == LBRACKET then
      var neg := pi + 1 < |p| && p[pi + 1] == CARET;
      Set(neg, SetElems(p, if neg then pi + 2 else pi + 1))
    else if ch == CARET || ch == DOLLAR then Anchor
    else Literal(ch)
  }

  function ItemQuant(p: bytes, pi: nat): Quant {
    QuantAt(p, pi + ItemLen(p, pi))
  }

  /** Where the item after the one at `pi`, quantifier included, starts. */
  function NextItem(p: bytes, pi: nat): (k: nat)
    ensures pi < |p| ==> k > pi
    ensures ItemQuant(p, pi) != Once ==> k <= |p|
  {
    pi + ItemLen(p, pi) + if ItemQuant(p, pi) == Once then 0 else 1
  }

  /** The first unescaped `)` at or after `i`. */
  function CloseParen(p: bytes, i: nat): (r: Option<nat>)
    ensures r.Some? ==> i <= r.value < |p| && p[r.value] == RPAREN
    decreases |p| - i
  {
    if i >= |p| then None
    else if p[i] == PERCENT && i + 1 < |p| then CloseParen(p, i + 2)
    else if p[i] == RPAREN then Some(i)
    else CloseParen(p, i + 1)
  }

  /** The items of `p` from byte `pi` on. With `groups`, a `(` opens a capture group whose
      body is read without groups; otherwise a `(` is an ordinary byte. */
  function Parse(p: bytes, pi: nat, groups: bool): Pat
    decreases |p| - pi
  {
    if pi >= |p| then Done
    else if p[pi] == DOLLAR then AtEnd
    else if groups && p[pi] == LPAREN then
      var c := CloseParen(p, pi + 1);
      if c.None? then Unclosed
      else Group(Parse(p[pi + 1..c.value], 0, false), Parse(p, c.value + 1, true))
    else Then(UnitAt(p, pi), ItemQuant(p, pi), Parse(p, NextItem(p, pi), groups))
  }

  predicate HasGroup(t: Pat) {
    match t
    case Done => false
    case AtEnd => false
    case Unclosed => true
    case Group(_, _) => true
    case Then(_, _, rest) => HasGroup(rest)
  }

  // ----- reading a suffix -----

  lemma {:induction false} BracketStopShift(p: bytes, k: nat, j: nat)
    requires k <= |p|
    ensures BracketStop(p[k..], j) + k == BracketStop(p, j + k)
    decreases |p| - j - k
  {
    if j + k < |p| {
      assert p[k..][j] == p[j + k];
      if p[j + k] != RBRACKET {
        BracketStopShift(p, k, if p[j + k] == PERCENT && j + k + 1 < |p| then j + 2 else j + 1);
      }
    }
  }

  lemma {:induction false} SetElemsShift(p: bytes, k: nat, j: nat)
    requires k <= |p|
    ensures SetElems(p[k..], j) == SetElems(p, j + k)
    decreases |p| - j - k
  {
    hide ElemAt, NextElem, SetElems;
    SetElemsStep(p[k..], j);
    SetElemsStep(p, j + k);
    if j + k < |p| && p[j + k] != RBRACKET {
      ElemShift(p, k, j);
      SetElemsShift(p, k, NextElem(p[k..], j));
    }
  }

  lemma SetElemsStep(p: bytes, j: nat)
    ensures SetElems(p, j) ==
            if j >= |p| || p[j] == RBRACKET then [] else [ElemAt(p, j)] + SetElems(p, NextElem(p, j))
  {
    hide ElemAt, NextElem;
  }

  lemma ElemShift(p: bytes, k: nat, j: nat)
    requires j + k < |p|
    ensures ElemAt(p[k..], j) == ElemAt(p, j + k)
    ensures NextElem(p[k..], j) + k == NextElem(p, j + k)
  {}

  lemma {:induction false} CloseParenShift(p: bytes, k: nat, i: nat)
    requires k <= |p|
    ensures CloseParen(p, i + k) ==
            if CloseParen(p[k..], i).Some? then Some(CloseParen(p[k..], i).value + k) else None
    decreases |p| - i - k
  {
    if i + k < |p| {
      if p[i + k] == PERCENT && i + k + 1 < |p| {
        CloseParenShift(p, k, i + 2);
      } else if p[i + k] != RPAREN {
        CloseParenShift(p, k, i + 1);
      }
    }
  }

  lemma UnitShift(p: bytes, k: nat, pi: nat)
    requires pi + k < |p|
    ensures UnitAt(p[k..], pi) == UnitAt(p, pi + k)
  {
    hide SetElems;
    SetElemsShift(p, k, pi + 1);
    SetElemsShift(p, k, pi + 2);
  }

  lemma QuantShift(p: bytes, k: nat, m: nat)
    requires k <= |p|
    ensures QuantAt(p[k..], m) == QuantAt(p, m + k)
  {}

  lemma NextShift(p: bytes, k: nat, pi: nat)
    requires pi + k < |p|
    ensures ItemQuant(p[k..], pi) == ItemQuant(p, pi + k)
    ensures NextItem(p[k..], pi) + k == NextItem(p, pi + k)
  {
    BracketStopShift(p, k, pi + 1);
    assert ItemLen(p[k..], pi) == ItemLen(p, pi + k) by { hide BracketStop; }
    QuantShift(p, k, pi + ItemLen(p[k..], pi));
    hide ItemLen, QuantAt, BracketStop;
  }

  lemma GroupShift(p: bytes, k: nat, pi: nat)
    requires pi + k < |p|
    ensures var c := CloseParen(p[k..], pi + 1);
            CloseParen(p, pi + k + 1) == (if c.Some? then Some(c.value + k) else None) &&
            (c.Some? ==> p[k..][pi + 1..c.value] == p[pi + k + 1..c.value + k])
  {
    CloseParenShift(p, k, pi + 1);
    hide CloseParen;
    var c := CloseParen(p[k..], pi + 1);
    if c.Some? {
      assert p[k..][pi + 1..c.value] == p[pi + k + 1..c.value + k];
    }
  }

  /** One step of reading a pattern. */
  lemma ParseStep(p: bytes, pi: nat, groups: bool)
    ensures pi >= |p| ==> Parse(p, pi, groups) == Done
    ensures pi < |p| && p[pi] == DOLLAR ==> Parse(p, pi, groups) == AtEnd
    ensures pi < |p| && p[pi] != DOLLAR && !(groups && p[pi] == LPAREN) ==>
              Parse(p, pi, groups) == Then(UnitAt(p, pi), ItemQuant(p, pi), Parse(p, NextItem(p, pi), groups))
    ensures pi < |p| && groups && p[pi] == LPAREN ==>
              Parse(p, pi, groups) ==
              match CloseParen(p, pi + 1)
              case None => Unclosed
              case Some(c) => Group(Parse(p[pi + 1..c], 0, false), Parse(p, c + 1, true))
  {}

  /** Reading the suffix `p[k..]` from `pi` is reading `p` from `pi + k`. */
  lemma {:induction false} ParseShift(p: bytes, k: nat, pi: nat, groups: bool)
    requires k <= |p|
    ensures Parse(p[k..], pi, groups) == Parse(p, pi + k, groups)
    decreases |p| - pi - k
  {
    hide *;
    var t := p[k..];
    ParseStep(t, pi, groups);
    ParseStep(p, pi + k, groups);
    if pi + k < |p| {
      assert t[pi] == p[pi + k];
      if p[pi + k] == DOLLAR {
      } else if groups && p[pi + k] == LPAREN {
        GroupShift(p, k, pi);
        var c := CloseParen(t, pi + 1);
        if c.Some? {
          ParseShift(p, k, c.value + 1, true);
        }
      } else {
        UnitShift(p, k, pi);
        NextShift(p, k, pi);
        ParseShift(p, k, NextItem(t, pi), groups);
      }
    }
  }

  /** Where no group is met, the two readings of a pattern agree. */
  lemma {:induction false} ParseWithoutGroups(p: bytes, pi: nat)
    requires !HasGroup(Parse(p, pi, true))
    ensures Parse(p, pi, true) == Parse(p, pi, false)
    decreases |p| - pi
  {
    hide UnitAt, ItemQuant, NextItem;
    if pi < |p| && p[pi] != DOLLAR {
      ParseWithoutGroups(p, NextItem(p, pi));
    }
  }

  lemma {:induction false} NoParenNoGroup(p: bytes, pi: nat)
    requires LPAREN !in p
    ensures !HasGroup(Parse(p, pi, true))
    decreases |p| - pi
  {
    hide UnitAt, ItemQuant, NextItem;
    if pi < |p| && p[pi] != DOLLAR {
      assert p[pi] in p;
      NoParenNoGroup(p, NextItem(p, pi));
    }
  }

  // ----- the scanners -----

  method ItemSize(p: bytes, pi: nat) returns (n: nat)
    ensures n == ItemLen(p, pi)
  {
    if pi >= |p| {
      return 0;
    }
    if p[pi] == PERCENT {
      return 2;
    }
    if p[pi] == LBRACKET {
      var j := pi + 1;
      while j < |p| && p[j] != RBRACKET
        invariant pi + 1 <= j <= |p|
        invariant BracketStop(p, j) == BracketStop(p, pi + 1)
      {
        if p[j] == PERCENT && j + 1 < |p| {
          j := j + 2;
        } else {
          j := j + 1;
        }
      }
      return if j < |p| then j + 1 - pi else |p| - pi;
    }
    return 1;
  }

  /** Matches the set at `pi` against one subject byte. When the scan runs, it stops at
      `stop`, the place the item-size scan reports. */
  method MatchBracket(s: bytes, si: nat, p: bytes, pi: nat) returns (r: Option<nat>, ghost stop: Option<nat>)
    requires pi < |p| && p[pi] == LBRACKET
    ensures r == Take(UnitAt(p, pi), s, si)
    ensures stop.Some? <==> si < |s|
    ensures stop.Some? ==> stop.value == BracketStop(p, pi + 1)
  {
    hide SetElems, SetStop, InSet, BracketStop, ClassMatch;
    var j := pi + 1;
    var negate := false;
    if j < |p| && p[j] == CARET {
      negate := true;
      j := j + 1;
    }
    stop := None;
    if si >= |s| {
      return None, stop;
    }
    var c := s[si];
    var matched := false;
    ghost var start := j;
    while j < |p| && p[j] != RBRACKET
      invariant start <= j <= |p|
      invariant InSet(SetElems(p, start), c) <==> matched || InSet(SetElems(p, j), c)
      invariant SetStop(p, j) == SetStop(p, start)
      decreases |p| - j
    {
      SetStep(p, j, c);
      var (lo, loCls, consumed) := BracketElem(p, j);
      j := j + consumed;
      if IsRange(p, j) {
        j := j + 1;
        var (hi, hiCls, consumed2) := BracketElem(p, j);
        j := j + consumed2;
        if RangeHit(c, lo, loCls, hi, hiCls) {
          matched := true;
        }
      } else if loCls != 0 {
        if ClassMatch(c, loCls) {
          matched := true;
        }
      } else if c == lo {
        matched := true;
      }
    }
    SetDone(p, j, c);
    SetStopIsBracketStop(p, start);
    CaretIsOneStep(p, pi + 1);
    stop := Some(j);
    if (matched && !negate) || (!matched && negate) {
      r := Some(1);
    } else {
      r := None;
    }
  }

  /** The scanner's own test of a byte against a range whose ends may be classes. */
  predicate RangeHit(c: byte, lo: byte, loCls: byte, hi: byte, hiCls: byte)
    ensures RangeHit(c, lo, loCls, hi, hiCls) == Accepts(Range(lo, loCls, hi, hiCls), c)
  {
    if loCls == 0 && hiCls == 0 then c >= lo && c <= hi
    else if loCls != 0 && hiCls == 0 then ClassMatch(c, loCls) || (c >= lo && c <= hi)
    else if loCls == 0 && hiCls != 0 then (c >= lo && c <= hi) || ClassMatch(c, hiCls)
    else ClassMatch(c, loCls) || ClassMatch(c, hiCls)
  }

  lemma SetStep(p: bytes, j: nat, c: byte)
    requires j < |p| && p[j] != RBRACKET
    ensures SetStop(p, j) == SetStop(p, NextElem(p, j))
    ensures InSet(SetElems(p, j), c) <==> Accepts(ElemAt(p, j), c) || InSet(SetElems(p, NextElem(p, j)), c)
  {
    InSetCons(ElemAt(p, j), SetElems(p, NextElem(p, j)), c);
  }

  lemma SetDone(p: bytes, j: nat, c: byte)
    requires j >= |p| || p[j] == RBRACKET
    ensures !InSet(SetElems(p, j), c) && SetStop(p, j) == j
  {}

  lemma CaretIsOneStep(p: bytes, j: nat)
    ensures j < |p| && p[j] == CARET ==> BracketStop(p, j) == BracketStop(p, j + 1)
  {}

  lemma InSetCons(e: SetElem, es: seq<SetElem>, c: byte)
    ensures InSet([e] + es, c) <==> Accepts(e, c) || InSet(es, c)
  {
    var fs := [e] + es;
    assert fs[0] == e;
    if InSet(es, c) {
      var k :| 0 <= k < |es| && Accepts(es[k], c);
      assert Accepts(fs[k + 1], c);
    }
  }

  method MatchItem(s: bytes, si: nat, p: bytes, pi: nat) returns (r: Option<nat>)
    ensures r == if pi < |p| then Take(UnitAt(p, pi), s, si) else Some(0)
  {
    if pi >= |p| {
      return Some(0);
    }
    var ch := p[pi];
    if ch == DOT {
      return if si < |s| then Some(1) else None;
    }
    if ch == PERCENT {
      if pi + 1 >= |p| {
        return None;
      }
      var cls := p[pi + 1];
      if cls == PERCENT {
        return if si < |s| && s[si] == PERCENT then Some(1) else None;
      }
      return if si < |s| && ClassMatch(s[si], cls) then Some(1) else None;
    }
    if ch == LBRACKET {
      ghost var stop;
      r, stop := MatchBracket(s, si, p, pi);
      return;
    }
    if ch == CARET || ch == DOLLAR {
      return Some(0);
    }
    return if si < |s| && s[si] == ch then Some(1) else None;
  }

  method FindCloseParen(p: bytes, open: nat) returns (r: Option<nat>)
    ensures r == CloseParen(p, open + 1)
  {
    var i := open + 1;
    while i < |p|
      invariant CloseParen(p, i) == CloseParen(p, open + 1)
    {
      if p[i] == PERCENT && i + 1 < |p| {
        i := i + 2;
        continue;
      }
      if p[i] == RPAREN {
        return Some(i);
      }
      i := i + 1;
    }
    return None;
  }
}
