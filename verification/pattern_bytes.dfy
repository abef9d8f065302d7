/** What the bytes of a pattern mean: items, sets, quantifiers, `^`, `$` and groups, each written
    out byte by byte and followed to the answer of the search. */
module PatternBytes {
  import opened Core
  import opened PatternItems
  import opened PatternMatch
  import opened PatternCaptures
  import opened PatternFind

  // ----- one item, and the bytes it takes -----

  /** The bytes a letter behind `%` stands for; any other byte stands for itself. */
  predicate InClass(letter: byte, c: byte) {
    if letter == 'a' as int then 0x41 <= c <= 0x5A || 0x61 <= c <= 0x7A
    else if letter == 'A' as int then 0x41 <= c <= 0x5A
    else if letter == 'c' as int then c <= 0x1F || c == 0x7F
    else if letter == 'd' as int then 0x30 <= c <= 0x39
    else if letter == 'l' as int then 0x61 <= c <= 0x7A
    else if letter == 'p' as int then 0x21 <= c <= 0x2F || 0x3A <= c <= 0x40 || 0x5B <= c <= 0x60 || 0x7B <= c <= 0x7E
    else if letter == 's' as int then c == 0x20 || c == 0x09 || c == 0x0A || c == 0x0C || c == 0x0D
    else if letter == 'u' as int then 0x41 <= c <= 0x5A
    else if letter == 'w' as int then 0x30 <= c <= 0x39 || 0x41 <= c <= 0x5A || 0x61 <= c <= 0x7A
    else if letter == 'x' as int then 0x30 <= c <= 0x39 || 0x41 <= c <= 0x46 || 0x61 <= c <= 0x66
    else c == letter
  }

  /** A member of a bracket set: a byte, a range, a class. */
  datatype Member = Single(b: byte) | Between(lo: byte, hi: byte) | Listed(letter: byte)

  datatype Item = Dot | Percent(letter: byte) | Plain(b: byte) | Bracket(negated: bool, members: seq<Member>)

  predicate MemberTakes(m: Member, c: byte) {
    match m
    case Single(b) => c == b
    case Between(lo, hi) => lo <= c <= hi
    case Listed(letter) => InClass(letter, c)
  }

  predicate Takes(it: Item, c: byte) {
    match it
    case Dot => true
    case Percent(letter) => InClass(letter, c)
    case Plain(b) => c == b
    case Bracket(negated, members) => AnyTakes(members, c) != negated
  }

  predicate AnyTakes(ms: seq<Member>, c: byte) {
    exists k :: 0 <= k < |ms| && MemberTakes(ms[k], c)
  }

  // ----- how it is written -----

  function MemberBytes(m: Member): (b: bytes)
    ensures b != []
  {
    match m
    case Single(b) => [b]
    case Between(lo, hi) => [lo, 0x2D, hi]
    case Listed(letter) => [0x25, letter]
  }

  function MembersBytes(ms: seq<Member>): bytes {
    if ms == [] then [] else MemberBytes(ms[0]) + MembersBytes(ms[1..])
  }

  function ItemBytes(it: Item): bytes {
    match it
    case Dot => [0x2E]
    case Percent(letter) => [0x25, letter]
    case Plain(b) => [b]
    case Bracket(negated, members) => (if negated then [0x5B, 0x5E] else [0x5B]) + MembersBytes(members) + [0x5D]
  }

  /** A byte without a meaning of its own at the start of a set member: not `%`, `-` or `]`. */
  predicate Bare(b: byte) {
    b != 0x25 && b != 0x2D && b != 0x5D
  }

  predicate WrittenMember(m: Member) {
    match m
    case Single(b) => Bare(b)
    case Between(lo, hi) => Bare(lo) && hi != 0x25 && hi != 0x5D
    case Listed(_) => true
  }

  predicate WrittenMembers(ms: seq<Member>) {
    forall k :: 0 <= k < |ms| ==> WrittenMember(ms[k])
  }

  /** Plain bytes are all but `$ % ( . [ ^`; a set that is not negated does not begin with `^`. */
  predicate WrittenItem(it: Item) {
    match it
    case Plain(b) => b !in {0x24, 0x25, 0x28, 0x2E, 0x5B, 0x5E}
    case Bracket(negated, ms) => WrittenMembers(ms) && (negated || ms == [] || MemberBytes(ms[0])[0] != 0x5E)
    case _ => true
  }

  /** `*`, `+`, `-` and `?`. */
  predicate IsQuantifier(b: byte) {
    b == 0x2A || b == 0x2B || b == 0x2D || b == 0x3F
  }

  // ----- reading sets -----

  /** Reading the members of a set from `pre` on: the same bytes are taken, and the scan stops at
      the closing bracket. */
  lemma {:induction false} ReadsMembers(pre: bytes, ms: seq<Member>, post: bytes, c: byte)
    requires WrittenMembers(ms)
    ensures var p := pre + MembersBytes(ms) + [0x5D] + post;
            BracketStop(p, |pre|) == |pre| + |MembersBytes(ms)| &&
            (InSet(SetElems(p, |pre|), c) <==> AnyTakes(ms, c))
    decreases |ms|
  {
    hide InSet, SetElems, BracketStop, MemberTakes, AnyTakes, Accepts, ElemAt, NextElem, WrittenMember, MemberBytes;
    var p := pre + MembersBytes(ms) + [0x5D] + post;
    SetElemsStep(p, |pre|);
    if ms == [] {
      assert p[|pre|] == 0x5D;
      EmptySet(c);
      AtBracket(p, |pre|);
    } else {
      var pre' := pre + MemberBytes(ms[0]);
      var rest := MembersBytes(ms[1..]) + [0x5D] + post;
      Regroup(pre, MemberBytes(ms[0]), MembersBytes(ms[1..]), post);
      BareNext(ms[1..], post);
      ReadsMember(p, pre, ms[0], rest, c);
      ReadsMembers(pre', ms[1..], post, c);
      OneMoreElem(ElemAt(p, |pre|), SetElems(p, |pre'|), c);
      BracketStopNext(p, |pre|);
      OneMoreMember(ms, c);
    }
  }

  lemma Regroup(pre: bytes, b: bytes, more: bytes, post: bytes)
    ensures pre + (b + more) + [0x5D] + post == pre + (b + (more + [0x5D] + post))
    ensures pre + (b + more) + [0x5D] + post == (pre + b) + more + [0x5D] + post
  {}

  lemma EmptySet(c: byte)
    ensures !InSet([], c) && !AnyTakes([], c)
  {}

  lemma AtBracket(p: bytes, j: nat)
    requires j < |p| && p[j] == 0x5D
    ensures BracketStop(p, j) == j
  {}

  lemma OneMoreElem(e: SetElem, es: seq<SetElem>, c: byte)
    ensures InSet([e] + es, c) <==> Accepts(e, c) || InSet(es, c)
  {
    if Accepts(e, c) {
      assert Accepts(([e] + es)[0], c);
    }
    if InSet(es, c) {
      var k :| 0 <= k < |es| && Accepts(es[k], c);
      assert Accepts(([e] + es)[k + 1], c);
    }
  }

  lemma OneMoreMember(ms: seq<Member>, c: byte)
    requires ms != []
    ensures AnyTakes(ms, c) <==> MemberTakes(ms[0], c) || AnyTakes(ms[1..], c)
  {
    hide MemberTakes;
    if k :| 0 <= k < |ms[1..]| && MemberTakes(ms[1..][k], c) {
      assert MemberTakes(ms[k + 1], c);
    }
    if k :| 0 < k < |ms| && MemberTakes(ms[k], c) {
      assert MemberTakes(ms[1..][k - 1], c);
    }
  }

  /** What follows a member is no `-`. */
  lemma BareNext(ms: seq<Member>, post: bytes)
    requires WrittenMembers(ms)
    ensures var rest := MembersBytes(ms) + [0x5D] + post; rest != [] && rest[0] != 0x2D
  {
    if ms != [] {
      assert WrittenMember(ms[0]);
    }
  }

  lemma ReadsMember(p: bytes, pre: bytes, m: Member, rest: bytes, c: byte)
    requires WrittenMember(m) && p == pre + (MemberBytes(m) + rest) && rest != [] && rest[0] != 0x2D
    ensures p[|pre|] != 0x5D && NextElem(p, |pre|) == |pre| + |MemberBytes(m)|
    ensures Accepts(ElemAt(p, |pre|), c) <==> MemberTakes(m, c)
  {
    var b := MemberBytes(m);
    assert p[|pre| + |b|] == rest[0];
    forall i | 0 <= i < |b| ensures p[|pre| + i] == b[i] {
      assert p[|pre| + i] == (b + rest)[i];
    }
  }

  // ----- reading one item -----

  /** The item at the start of a pattern: its length, and the bytes it takes. */
  lemma ReadsItem(it: Item, rest: bytes, c: byte)
    requires WrittenItem(it)
    ensures var p := ItemBytes(it) + rest;
            p != [] && p[0] != 0x24 && p[0] != 0x28 && ItemLen(p, 0) == |ItemBytes(it)| &&
            !UnitAt(p, 0).Anchor? && (UnitAccepts(UnitAt(p, 0), c) <==> Takes(it, c))
  {
    if it.Bracket? {
      hide UnitAccepts, Takes;
      ReadsBracket(it, rest, c);
    }
  }

  lemma ReadsBracket(it: Item, rest: bytes, c: byte)
    requires WrittenItem(it) && it.Bracket?
    ensures var p := ItemBytes(it) + rest;
            p != [] && p[0] == 0x5B && ItemLen(p, 0) == |ItemBytes(it)| &&
            !UnitAt(p, 0).Anchor? && (UnitAccepts(UnitAt(p, 0), c) <==> Takes(it, c))
  {
    hide BracketStop, SetElems, InSet, AnyTakes, MembersBytes, WrittenMember, MemberBytes;
    var p := ItemBytes(it) + rest;
    var pre: bytes := if it.negated then [0x5B, 0x5E] else [0x5B];
    assert p == pre + MembersBytes(it.members) + [0x5D] + rest;
    ReadsMembers(pre, it.members, rest, c);
    SecondByte(it, rest);
    if it.negated {
      BracketBehind(p);
    }
  }

  lemma SecondByte(it: Item, rest: bytes)
    requires WrittenItem(it) && it.Bracket?
    ensures var p := ItemBytes(it) + rest; |p| >= 2 && p[0] == 0x5B && (p[1] == 0x5E <==> it.negated)
  {
    if !it.negated && it.members != [] {
      var b := MemberBytes(it.members[0]);
      assert (ItemBytes(it) + rest)[1] == MembersBytes(it.members)[0] == b[0];
    }
  }

  lemma BracketBehind(p: bytes)
    requires |p| >= 2 && p[1] == 0x5E
    ensures BracketStop(p, 1) == BracketStop(p, 2)
  {}

  // ----- an item and the rest of the pattern -----

  lemma ParseItem(it: Item, rest: bytes, groups: bool) returns (u: Unit)
    requires WrittenItem(it) && (rest == [] || !IsQuantifier(rest[0]))
    ensures Parse(ItemBytes(it) + rest, 0, groups) == Then(u, Once, Parse(rest, 0, groups))
    ensures !u.Anchor? && forall c :: UnitAccepts(u, c) <==> Takes(it, c)
  {
    hide Parse, UnitAt, ItemLen, UnitAccepts, Takes, ItemBytes, WrittenItem;
    var p := ItemBytes(it) + rest;
    ReadsItem(it, rest, 0);
    u := UnitAt(p, 0);
    forall c ensures UnitAccepts(u, c) <==> Takes(it, c) {
      ReadsItem(it, rest, c);
    }
    ParseStep(p, 0, groups);
    ParseShift(p, |ItemBytes(it)|, 0, groups);
    assert p[|ItemBytes(it)|..] == rest;
  }

  lemma ParseQuantified(it: Item, q: byte, rest: bytes, groups: bool) returns (u: Unit)
    requires WrittenItem(it) && IsQuantifier(q)
    ensures var quant := if q == 0x2A then Star else if q == 0x2B then Plus else if q == 0x2D then Lazy else Opt;
            Parse(ItemBytes(it) + [q] + rest, 0, groups) == Then(u, quant, Parse(rest, 0, groups))
    ensures !u.Anchor? && forall c :: UnitAccepts(u, c) <==> Takes(it, c)
  {
    hide Parse, UnitAt, ItemLen, UnitAccepts, Takes, ItemBytes, WrittenItem;
    var p := ItemBytes(it) + ([q] + rest);
    assert p == ItemBytes(it) + [q] + rest;
    ReadsItem(it, [q] + rest, 0);
    u := UnitAt(p, 0);
    forall c ensures UnitAccepts(u, c) <==> Takes(it, c) {
      ReadsItem(it, [q] + rest, c);
    }
    ParseStep(p, 0, groups);
    ParseShift(p, |ItemBytes(it)| + 1, 0, groups);
    assert p[|ItemBytes(it)| + 1..] == rest;
  }

  /** The length of the match of a pattern's bytes at `i`. */
  ghost function LengthAt(s: bytes, i: nat, p: bytes, groups: bool): Option<nat> {
    MatchLen(s, i, Parse(p, 0, groups))
  }

  /** The empty pattern matches the empty string. */
  lemma EmptyMatches(s: bytes, i: nat, groups: bool)
    ensures LengthAt(s, i, [], groups) == Some(0)
  {
    LenEnds(s, i);
  }

  /** An item takes the next byte of the subject if it is one of its own, and the rest of the
      pattern goes on behind it. */
  lemma ItemMatches(s: bytes, i: nat, it: Item, rest: bytes, groups: bool)
    requires WrittenItem(it) && (rest == [] || !IsQuantifier(rest[0]))
    ensures LengthAt(s, i, ItemBytes(it) + rest, groups) ==
            if i < |s| && Takes(it, s[i]) then Add(1, LengthAt(s, i + 1, rest, groups)) else None
  {
    hide MatchLen, Parse, UnitAccepts, Takes, ItemBytes, WrittenItem;
    var u := ParseItem(it, rest, groups);
    LenOnce(s, i, u, Parse(rest, 0, groups));
  }

  /** How many bytes from `i` on the item takes in a row. */
  ghost function InARow(s: bytes, i: nat, it: Item): nat
    decreases |s| - i
  {
    if i < |s| && Takes(it, s[i]) then 1 + InARow(s, i + 1, it) else 0
  }

  lemma {:induction false} UsesInARow(s: bytes, i: nat, it: Item, u: Unit)
    requires !u.Anchor? && forall c :: UnitAccepts(u, c) <==> Takes(it, c)
    ensures Uses(u, s, i) == InARow(s, i, it)
    decreases |s| - i
  {
    hide UnitAccepts, Takes;
    if i < |s| && Takes(it, s[i]) {
      UsesInARow(s, i + 1, it, u);
    }
  }

  /** The same `k` bytes further on. */
  ghost function LengthPast(s: bytes, i: nat, k: nat, p: bytes, groups: bool): Option<nat> {
    LengthAt(s, i + k, p, groups)
  }

  /** The largest count from `lo` to `hi` behind which the rest matches decides. */
  ghost predicate MostFirst(r: Option<nat>, s: bytes, i: nat, lo: nat, hi: nat, rest: bytes, groups: bool) {
    match r
    case None => forall k :: lo <= k <= hi ==> LengthPast(s, i, k, rest, groups).None?
    case Some(n) =>
      exists k :: lo <= k <= hi && Some(n) == Add(k, LengthPast(s, i, k, rest, groups)) &&
                  forall j :: k < j <= hi ==> LengthPast(s, i, j, rest, groups).None?
  }

  /** The smallest count up to `hi` behind which the rest matches decides. */
  ghost predicate FewestFirst(r: Option<nat>, s: bytes, i: nat, lo: nat, hi: nat, rest: bytes, groups: bool) {
    match r
    case None => forall k :: lo <= k <= hi ==> LengthPast(s, i, k, rest, groups).None?
    case Some(n) =>
      exists k :: lo <= k <= hi && Some(n) == Add(k, LengthPast(s, i, k, rest, groups)) &&
                  forall j :: lo <= j < k ==> LengthPast(s, i, j, rest, groups).None?
  }

  lemma {:induction false} DownMostFirst(s: bytes, i: nat, u: Unit, q: Quant, rest: bytes, groups: bool, k: nat, lo: nat)
    requires !u.Anchor?
    ensures var t := Parse(rest, 0, groups);
            MostFirst(Len(Then(u, q, t), Down(s, i, u, t, k, lo)), s, i, lo, k, rest, groups)
    decreases k
  {
    hide Run, Down, Len, MatchLen, Parse;
    var t := Parse(rest, 0, groups);
    LenDown(s, i, u, q, t, k, lo);
    if k >= lo {
      if MatchLen(s, i + k, t).Some? {
        assert Add(k, LengthPast(s, i, k, rest, groups)) == Len(Then(u, q, t), Down(s, i, u, t, k, lo));
      } else if k > 0 {
        DownMostFirst(s, i, u, q, rest, groups, k - 1, lo);
      }
    }
  }

  lemma {:induction false} UpFewestFirst(s: bytes, i: nat, u: Unit, rest: bytes, groups: bool, k: nat, it: Item)
    requires !u.Anchor? && forall c :: UnitAccepts(u, c) <==> Takes(it, c)
    ensures var t := Parse(rest, 0, groups);
            FewestFirst(Len(Then(u, Lazy, t), Up(s, i, u, t, k)), s, i, k, k + InARow(s, i + k, it), rest, groups)
    decreases if i + k <= |s| then |s| - (i + k) + 1 else 1
  {
    hide Run, Up, Len, MatchLen, Parse, UnitAccepts, Takes;
    var t := Parse(rest, 0, groups);
    LenUp(s, i, u, t, k);
    if MatchLen(s, i + k, t).Some? {
      assert Add(k, LengthPast(s, i, k, rest, groups)) == Len(Then(u, Lazy, t), Up(s, i, u, t, k));
    } else if Take(u, s, i + k) == Some(1) {
      UpFewestFirst(s, i, u, rest, groups, k + 1, it);
    }
  }

  /** `*`, `+` and `?` take as many bytes as the rest of the pattern allows, `-` as few: out of
      none at all, of at least one for `+`, of at most one for `?`. */
  lemma QuantifierMatches(s: bytes, i: nat, it: Item, q: byte, rest: bytes, groups: bool)
    requires WrittenItem(it) && IsQuantifier(q)
    ensures var r := LengthAt(s, i, ItemBytes(it) + [q] + rest, groups);
            var n := InARow(s, i, it);
            if q == '*' as int then MostFirst(r, s, i, 0, n, rest, groups)
            else if q == '+' as int then MostFirst(r, s, i, 1, n, rest, groups)
            else if q == '?' as int then MostFirst(r, s, i, 0, if n > 0 then 1 else 0, rest, groups)
            else FewestFirst(r, s, i, 0, n, rest, groups)
  {
    hide MatchLen, Parse, UnitAccepts, Takes, ItemBytes, WrittenItem, Run, Down, Up, Len, MostFirst, FewestFirst;
    var u := ParseQuantified(it, q, rest, groups);
    UsesInARow(s, i, it, u);
    LenStart(s, i, u, Parse(rest, 0, groups));
    var n := InARow(s, i, it);
    if q == 0x2A {
      DownMostFirst(s, i, u, Star, rest, groups, n, 0);
    } else if q == 0x2B {
      DownMostFirst(s, i, u, Plus, rest, groups, n, 1);
    } else if q == 0x3F {
      DownMostFirst(s, i, u, Opt, rest, groups, if n > 0 then 1 else 0, 0);
    } else {
      UpFewestFirst(s, i, u, rest, groups, 0, it);
    }
  }

  // ----- `$`, `^` and groups -----

  /** `$` matches at the end of the subject only, wherever it stands. */
  lemma DollarMatches(s: bytes, i: nat, rest: bytes, groups: bool)
    ensures LengthAt(s, i, [0x24] + rest, groups) == if i == |s| then Some(0) else None
  {
    hide MatchLen, Parse;
    ParseStep([0x24] + rest, 0, groups);
    LenEnds(s, i);
  }

  /** A `^` that does not begin the pattern matches the empty string. */
  lemma CaretMatches(s: bytes, i: nat, rest: bytes, groups: bool)
    requires rest == [] || !IsQuantifier(rest[0])
    ensures LengthAt(s, i, [0x5E] + rest, groups) == LengthAt(s, i, rest, groups)
  {
    hide MatchLen, Parse;
    var p := [0x5E] + rest;
    ParseStep(p, 0, groups);
    ParseShift(p, 1, 0, groups);
    assert p[1..] == rest;
    LenOnce(s, i, UnitAt(p, 0), Parse(rest, 0, groups));
  }

  /** No `)` but behind a `%`, and no `%` at the end. */
  predicate GroupBody(b: bytes) {
    b == [] ||
    if b[0] == 0x25 then |b| >= 2 && GroupBody(b[2..]) else b[0] != 0x29 && GroupBody(b[1..])
  }

  lemma {:induction false} ClosesBehind(pre: bytes, body: bytes, rest: bytes)
    requires GroupBody(body)
    ensures CloseParen(pre + body + [0x29] + rest, |pre|) == Some(|pre| + |body|)
    decreases |body|
  {
    var p := pre + body + [0x29] + rest;
    if body == [] {
      assert p[|pre|] == 0x29;
    } else {
      var k := if body[0] == 0x25 then 2 else 1;
      var pre' := pre + body[..k];
      assert p == pre' + body[k..] + [0x29] + rest;
      ClosesBehind(pre', body[k..], rest);
      assert p[|pre|] == body[0];
    }
  }

  /** Without a closing parenthesis a pattern with a group matches nothing. */
  lemma {:induction false} UnclosedFails(s: bytes, i: nat, body: bytes, caps: Spans)
    requires GroupBody(body)
    ensures Gm(s, i, Parse([0x28] + body, 0, true), caps) == Outcome(None, caps)
  {
    hide Parse, Gm, MatchLen, CloseParen;
    ParseStep([0x28] + body, 0, true);
    NeverCloses([0x28], body);
    GmEnds(s, i, caps);
  }

  lemma {:induction false} NeverCloses(pre: bytes, body: bytes)
    requires GroupBody(body)
    ensures CloseParen(pre + body, |pre|) == None
    decreases |body|
  {
    var p := pre + body;
    if body != [] {
      var k := if body[0] == 0x25 then 2 else 1;
      assert p == (pre + body[..k]) + body[k..];
      NeverCloses(pre + body[..k], body[k..]);
      assert p[|pre|] == body[0];
    }
  }

  /** A group matches what its body matches on its own and records where; then the rest of the
      pattern goes on. Without groups a parenthesis is an ordinary byte. */
  lemma GroupMatches(s: bytes, i: nat, body: bytes, rest: bytes, caps: Spans)
    requires GroupBody(body)
    ensures Gm(s, i, Parse([0x28] + body + [0x29] + rest, 0, true), caps) ==
            match LengthAt(s, i, body, false)
            case None => Outcome(None, caps)
            case Some(n) =>
              After(n, Gm(s, i + n, Parse(rest, 0, true), if |caps| < 8 then caps + [(i, i + n)] else caps))
  {
    hide MatchLen, Parse, Gm, CloseParen;
    var p := [0x28] + body + [0x29] + rest;
    ParseStep(p, 0, true);
    ClosesBehind([0x28], body, rest);
    assert p[1..1 + |body|] == body && p[|body| + 2..] == rest;
    ParseShift(p, |body| + 2, 0, true);
    GmGroup(s, i, Parse(body, 0, false), Parse(rest, 0, true), caps);
  }

  // ----- `string.find` -----

  /** An anchored pattern is found at the start of the search or not at all. */
  lemma CaretAnchors(s: bytes, p: bytes, start: nat)
    ensures Found(s, [0x5E] + p, start) ==
            match LengthAt(s, start, p, false) case None => None case Some(n) => Some((start + 1, start + n))
  {
    hide MatchLen, Parse;
    assert ([0x5E] + p)[1..] == p;
  }

  /** Any other pattern is found at the first place from the start on where it matches. */
  lemma FindsFirst(s: bytes, p: bytes, start: nat)
    requires (p == [] || p[0] != 0x5E) && start <= |s|
    ensures match Found(s, p, start)
            case None => forall k :: start <= k <= |s| ==> LengthAt(s, k, p, false).None?
            case Some((first, last)) =>
              start < first <= |s| + 1 && Add(first - 1, LengthAt(s, first - 1, p, false)) == Some(last) &&
              forall k :: start <= k < first - 1 ==> LengthAt(s, k, p, false).None?
  {
    hide MatchLen, Parse;
    var t := Parse(p, 0, false);
    FirstStartIsLeftmost(s, t, start, false);
    var k := FirstStart(s, t, start, false);
    forall j | start <= j <= |s| && (k.Some? ==> j < k.value) ensures MatchLen(s, j, t).None? {
      assert Candidate(s, start, false, j);
    }
  }

  /** A pattern of one item is found at the first byte the item takes: `%d` at the first digit. */
  lemma FindsItem(s: bytes, it: Item, start: nat)
    requires WrittenItem(it) && start <= |s|
    ensures match Found(s, ItemBytes(it), start)
            case None => forall k :: start <= k < |s| ==> !Takes(it, s[k])
            case Some((first, last)) =>
              first == last && start < first <= |s| && Takes(it, s[first - 1]) &&
              forall k :: start <= k < first - 1 ==> !Takes(it, s[k])
  {
    hide MatchLen, Parse, Found, Takes, LengthAt;
    var p := ItemBytes(it);
    assert p + [] == p;
    ReadsFirst(it);
    FindsFirst(s, p, start);
    forall k | start <= k <= |s|
      ensures LengthAt(s, k, p, false) == if k < |s| && Takes(it, s[k]) then Some(1) else None
    {
      ItemMatches(s, k, it, [], false);
      EmptyMatches(s, k + 1, false);
    }
  }

  lemma ReadsFirst(it: Item)
    requires WrittenItem(it)
    ensures ItemBytes(it) != [] && ItemBytes(it)[0] != 0x5E
  {}

  // ----- the search under `gmatch` and `gsub` -----

  /** The first place where the pattern, read with groups, matches; only the start of the search for
      a pattern anchored with `^`. Its captures are those the search leaves there. */
  lemma MatchesFirst(s: bytes, p: bytes, start: nat)
    requires start <= |s|
    ensures var anchored := p != [] && p[0] == 0x5E;
            var body := if anchored then p[1..] else p;
            match FindMatch(s, p, start)
            case None => forall k :: start <= k <= (if anchored then start else |s|) ==> LengthAt(s, k, body, true).None?
            case Some(m) =>
              start <= m.start <= m.end <= |s| && (anchored ==> m.start == start) &&
              Add(m.start, LengthAt(s, m.start, body, true)) == Some(m.end) &&
              m.caps == Gm(s, m.start, Parse(body, 0, true), []).caps &&
              forall k :: start <= k < m.start ==> LengthAt(s, k, body, true).None?
  {
    hide MatchLen, Parse, Gm;
    var anchored := p != [] && p[0] == 0x5E;
    var t := Parse(if anchored then p[1..] else p, 0, true);
    FirstStartIsLeftmost(s, t, start, anchored);
    var k := FirstStart(s, t, start, anchored);
    if k.Some? {
      GmLen(s, k.value, t, []);
      FoundInSubject(s, p, start);
    }
    forall j | start <= j <= (if anchored then start else |s|) && (k.Some? ==> j < k.value) ensures MatchLen(s, j, t).None? {
      assert Candidate(s, start, anchored, j);
    }
  }
}
