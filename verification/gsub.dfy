/** `string.gmatch` and `string.gsub`: the sequence of successive matches, iterating over it,
    and replacing it. */
module Gsub {
  import opened Core
  import opened PatternItems
  import opened PatternMatch
  import opened PatternCaptures
  import opened PatternFind

  // ----- successive matches -----

  /** Where the search resumes after a match: never at or before its start. */
  function NextPos(m: Match): nat {
    if m.end > m.start then m.end else m.start + 1
  }

  /** The successive matches from `pos` on. */
  ghost function Matches(s: bytes, p: bytes, pos: nat): seq<Match>
    decreases |s| + 1 - pos
  {
    if pos > |s| then []
    else
      match FindMatch(s, p, pos)
      case None => []
      case Some(m) =>
        FoundInSubject(s, p, pos);
        [m] + Matches(s, p, NextPos(m))
  }

  ghost predicate Ordered(s: bytes, pos: nat, ms: seq<Match>)
    decreases |ms|
  {
    ms == [] ||
    (pos <= ms[0].start <= ms[0].end <= |s| && SpansIn(ms[0].caps, |s|) && Ordered(s, NextPos(ms[0]), ms[1..]))
  }

  /** Successive matches lie in the subject, captures included, and never overlap. */
  lemma {:induction false} MatchesOrdered(s: bytes, p: bytes, pos: nat)
    ensures Ordered(s, pos, Matches(s, p, pos))
    decreases |s| + 1 - pos
  {
    hide FindMatch;
    if pos <= |s| && FindMatch(s, p, pos).Some? {
      FoundInSubject(s, p, pos);
      MatchesOrdered(s, p, NextPos(FindMatch(s, p, pos).value));
    }
  }

  // ----- anchored patterns -----

  /** Under `^` each successive match starts exactly where the search resumes. */
  lemma {:induction false} AnchoredAdjacent(s: bytes, p: bytes, pos: nat, k: nat)
    requires Anchored(p) && k < |Matches(s, p, pos)|
    ensures var ms := Matches(s, p, pos); ms[k].start == if k == 0 then pos else NextPos(ms[k - 1])
    decreases k
  {
    hide FindMatch, Matches;
    MatchesStep(s, p, pos);
    AnchoredStart(s, p, pos);
    var m := FindMatch(s, p, pos).value;
    if k > 0 {
      AnchoredAdjacent(s, p, NextPos(m), k - 1);
    }
  }

  lemma AnchoredStart(s: bytes, p: bytes, pos: nat)
    requires Anchored(p) && FindMatch(s, p, pos).Some?
    ensures FindMatch(s, p, pos).value.start == pos
  {
    hide MatchLen, Parse, Gm;
  }

  /** A pattern anchored with `^` is replaced or yielded at most once exactly when it does not
      match again where the search resumes after its match at the start. */
  lemma AnchoredOnce(s: bytes, p: bytes)
    requires Anchored(p)
    ensures var t := Parse(Body(p), 0, true);
            var n := MatchLen(s, 0, t);
            |Matches(s, p, 0)| <= 1 <==>
            n.None? ||
            var next := if n.value > 0 then n.value else 1;
            next > |s| || MatchLen(s, next, t).None?
  {
    hide MatchLen, Parse, Gm;
    var t := Parse(Body(p), 0, true);
    GmLen(s, 0, t, []);
    MatchesStep(s, p, 0);
    if FindMatch(s, p, 0).Some? {
      MatchesStep(s, p, NextPos(FindMatch(s, p, 0).value));
    }
  }

  /** A body that cannot fail repeats on every subject but the empty one. */
  lemma NullableRepeats(s: bytes, p: bytes)
    requires Anchored(p) && Nullable(Parse(Body(p), 0, true))
    ensures |Matches(s, p, 0)| > 1 <==> s != []
  {
    hide MatchLen, Parse, Nullable, Matches;
    var t := Parse(Body(p), 0, true);
    AnchoredOnce(s, p);
    NullableMatches(s, 0, t);
    MatchInSubject(s, 0, t);
    NullableMatches(s, if MatchLen(s, 0, t).value > 0 then MatchLen(s, 0, t).value else 1, t);
  }

  /** Nothing but unquantified items. */
  predicate Unquantified(t: Pat) {
    match t
    case Done => true
    case Then(_, q, rest) => q == Once && Unquantified(rest)
    case _ => false
  }

  /** Where an unquantified body matches, it matches the same bytes anywhere else. */
  lemma {:induction false} MatchMoves(s: bytes, i: nat, s': bytes, j: nat, t: Pat)
    requires Unquantified(t) && MatchLen(s, i, t).Some?
    requires var n := MatchLen(s, i, t).value;
             i + n <= |s| && j + n <= |s'| && s[i..i + n] == s'[j..j + n]
    ensures MatchLen(s', j, t) == MatchLen(s, i, t)
    decreases t
  {
    hide MatchLen;
    LenEnds(s, i);
    LenEnds(s', j);
    if t.Then? {
      LenOnce(s, i, t.u, t.rest);
      LenOnce(s', j, t.u, t.rest);
      var n, k := MatchLen(s, i, t).value, Take(t.u, s, i).value;
      if k > 0 {
        assert s[i] == s[i..i + n][0] == s'[j..j + n][0] == s'[j];
      }
      assert s[i + k..i + n] == s[i..i + n][k..] && s'[j + k..j + n] == s'[j..j + n][k..];
      MatchMoves(s, i + k, s', j + k, t.rest);
    }
  }

  /** An unquantified body that matches the whole of `w` repeats on `w` written twice. */
  lemma UnquantifiedRepeats(w: bytes, p: bytes)
    requires Anchored(p) && Unquantified(Parse(Body(p), 0, true)) && w != []
    requires MatchLen(w, 0, Parse(Body(p), 0, true)) == Some(|w|)
    ensures |Matches(w + w, p, 0)| > 1
  {
    hide MatchLen, Parse, Unquantified, Matches;
    var t, n := Parse(Body(p), 0, true), |w|;
    assert (w + w)[0..n] == w[0..n] && (w + w)[n..n + n] == w[0..n];
    MatchMoves(w, 0, w + w, 0, t);
    MatchMoves(w, 0, w + w, n, t);
    AnchoredOnce(w + w, p);
  }

  /** `^a` matches three times in `aaa`. */
  lemma AnchorRepeats()
    ensures Matches([0x61, 0x61, 0x61], [CARET, 0x61], 0) == [Match(0, 1, []), Match(1, 2, []), Match(2, 3, [])]
  {
    hide MatchLen, Parse, Gm, FindMatch;
    var s: bytes, p: bytes := [0x61, 0x61, 0x61], [CARET, 0x61];
    AnchorRepeatsAt(0);
    AnchorRepeatsAt(1);
    AnchorRepeatsAt(2);
    assert Matches(s, p, 3) == [] by { AnchorRepeatsAt(3); }
    assert Matches(s, p, 2) == [Match(2, 3, [])];
    assert Matches(s, p, 1) == [Match(1, 2, []), Match(2, 3, [])];
  }

  lemma AnchorRepeatsAt(k: nat)
    requires k <= 3
    ensures FindMatch([0x61, 0x61, 0x61], [CARET, 0x61], k) == if k < 3 then Some(Match(k, k + 1, [])) else None
  {
    hide MatchLen, Parse, Gm;
    var s: bytes, a: bytes := [0x61, 0x61, 0x61], [0x61];
    var t := Then(Literal(0x61), Once, Done);
    assert [CARET, 0x61][1..] == a;
    ParseStep(a, 0, true);
    ParseStep(a, 1, true);
    assert Parse(a, 0, true) == t;
    LenOnce(s, k, Literal(0x61), Done);
    GmOnce(s, k, Literal(0x61), Done, []);
    if k < 3 {
      LenEnds(s, k + 1);
      GmEnds(s, k + 1, []);
    }
  }

  // ----- gmatch -----

  /** Past the end of the subject a search succeeds exactly with a pattern that cannot fail. */
  lemma FoundPastEnd(s: bytes, p: bytes, pos: nat)
    requires pos > |s|
    ensures FindMatch(s, p, pos).Some? <==> Nullable(Parse(Body(p), 0, true))
  {
    hide MatchLen, Parse, Gm, Nullable;
    PastEnd(s, pos, Parse(Body(p), 0, true));
  }

  /** What one step yields: the captures, or the whole match when there are none. */
  function Yield(s: bytes, m: Match): seq<bytes>
    requires m.start <= m.end <= |s| && SpansIn(m.caps, |s|)
  {
    if m.caps == [] then [s[m.start..m.end]]
    else seq(|m.caps|, k requires 0 <= k < |m.caps| => s[m.caps[k].0..m.caps[k].1])
  }

  class GmatchState {
    const subject: bytes
    const pattern: bytes
    var pos: nat
    var done: bool

    ghost function Remaining(): seq<Match>
      reads this
    {
      if done then [] else Matches(subject, pattern, pos)
    }

    constructor (subject: bytes, pattern: bytes, init: nat)
      ensures this.subject == subject && this.pattern == pattern
      ensures pos == init && !done
    {
      this.subject, this.pattern, pos, done := subject, pattern, init, false;
    }

    /** One step yields the next of the successive matches; an empty result means the end,
        which is final. It aborts exactly when the iteration was begun past the end of the
        subject with a pattern that cannot fail. */
    method Advance() returns (vals: Checked<seq<bytes>>)
      modifies this
      ensures vals.Panicked? <==> old(!done && pos > |subject|) && Nullable(Parse(Body(pattern), 0, true))
      ensures vals.Returned? && old(Remaining()) == [] ==> vals == Returned([]) && done
      ensures old(Remaining()) != [] ==>
                Remaining() == old(Remaining())[1..] &&
                Ordered(subject, 0, old(Remaining())) && vals == Returned(Yield(subject, old(Remaining())[0]))
      ensures old(Remaining()) != [] ==>
                var m := old(Remaining())[0];
                if m.caps == [] then vals.value == [subject[m.start..m.end]]
                else |vals.value| == |m.caps| &&
                     forall k :: 0 <= k < |m.caps| ==> vals.value[k] == subject[m.caps[k].0..m.caps[k].1]
    {
      hide FindMatch, Nullable, Parse;
      if done {
        return Returned([]);
      }
      if pos > |subject| {
        FoundPastEnd(subject, pattern, pos);
      }
      OrderedFrom(subject, pattern, pos);
      var m := GmFind(subject, pattern, pos);
      if m.None? {
        done := true;
        return Returned([]);
      }
      FoundInSubject(subject, pattern, pos);
      var Match(a, b, caps) := m.value;
      if b > a {
        pos := b;
      } else if a + 1 > |subject| {
        done := true;
      } else {
        pos := a + 1;
      }
      if a > |subject| {
        return Panicked;
      }
      assert SpansIn(caps, |subject|) && b <= |subject|;
      var out := [];
      if caps == [] {
        out := [subject[a..b]];
      } else {
        for k := 0 to |caps|
          invariant |out| == k && forall j :: 0 <= j < k ==> out[j] == subject[caps[j].0..caps[j].1]
        {
          out := out + [subject[caps[k].0..caps[k].1]];
        }
      }
      assert out == Yield(subject, m.value);
      return Returned(out);
    }
  }

  lemma OrderedFrom(s: bytes, p: bytes, pos: nat)
    ensures Ordered(s, 0, Matches(s, p, pos))
  {
    MatchesOrdered(s, p, pos);
  }

  // ----- replacements -----

  const REPL_CAP: nat := 4096

  datatype Error = MalformedPattern | BadCapture | BadValue | TooLong

  /** What a replacement table holds under a key: nil or false, a value with a text, or
      something with no text. */
  datatype Hit = Keep | Text(text: bytes) | NoText

  datatype Repl =
    | Template(text: bytes)
    | Number(text: bytes)
    | Lookup(table: bytes -> Hit)
    | Other

  /** The replacement text under a `%` escape: `%%`, the match, or a recorded span. */
  function Escape(s: bytes, m: Match, d: byte): Result<bytes, Error>
    requires m.start <= m.end <= |s| && SpansIn(m.caps, |s|)
  {
    if d == PERCENT then Ok([PERCENT])
    else if !IsDigit(d) then Err(BadCapture)
    else if d == 0x30 then Ok(s[m.start..m.end])
    else if d - 0x30 <= |m.caps| then Ok(s[m.caps[d - 0x31].0..m.caps[d - 0x31].1])
    else Err(BadCapture)
  }

  /** The template from byte `ri` on, appended to `acc`. */
  function Expand(s: bytes, m: Match, t: bytes, ri: nat, acc: bytes): Result<bytes, Error>
    requires m.start <= m.end <= |s| && SpansIn(m.caps, |s|)
    decreases |t| - ri
  {
    if ri >= |t| then Ok(acc)
    else if t[ri] == PERCENT then
      if ri + 1 >= |t| then Err(BadCapture)
      else
        match Escape(s, m, t[ri + 1])
        case Err(e) => Err(e)
        case Ok(piece) =>
          if |acc| + |piece| > REPL_CAP then Err(TooLong) else Expand(s, m, t, ri + 2, acc + piece)
    else if |acc| >= REPL_CAP then Err(TooLong)
    else Expand(s, m, t, ri + 1, acc + [t[ri]])
  }

  function Key(s: bytes, m: Match): bytes
    requires m.start <= m.end <= |s| && SpansIn(m.caps, |s|)
  {
    if m.caps != [] then s[m.caps[0].0..m.caps[0].1] else s[m.start..m.end]
  }

  /** The text put in place of a match, or None to keep the match as it is. */
  function Chosen(s: bytes, m: Match, repl: Repl): Result<Option<bytes>, Error>
    requires m.start <= m.end <= |s| && SpansIn(m.caps, |s|)
  {
    match repl
    case Template(t) => (match Expand(s, m, t, 0, []) case Ok(x) => Ok(Some(x)) case Err(e) => Err(e))
    case Number(t) => if |t| > REPL_CAP then Err(TooLong) else Ok(Some(t))
    case Lookup(table) =>
      (match table(Key(s, m))
       case Keep => Ok(None)
       case Text(t) => if |t| > REPL_CAP then Err(TooLong) else Ok(Some(t))
       case NoText => Err(BadValue))
    case Other => Err(BadValue)
  }

  // ----- gsub -----

  /** After an empty match inside the subject, the byte it stands before is copied. */
  function Gap(s: bytes, m: Match): bytes {
    if m.end <= m.start < |s| then [s[m.start]] else []
  }

  function Tail(s: bytes, pos: nat): bytes {
    s[if pos <= |s| then pos else |s|..]
  }

  /** The subject from `pos` on with the matches `ms` replaced, up to `budget` substitutions,
      and their number; None if some replacement cannot be computed. */
  ghost function Replaced(s: bytes, pos: nat, ms: seq<Match>, repl: Repl, budget: nat): Option<(bytes, nat)>
    requires Ordered(s, pos, ms)
    decreases |ms|
  {
    if budget == 0 || ms == [] then Some((Tail(s, pos), 0))
    else
      var m := ms[0];
      match Chosen(s, m, repl)
      case Err(_) => None
      case Ok(None) =>
        Prepend(s[pos..m.start] + s[m.start..m.end] + Gap(s, m), 0,
                Replaced(s, NextPos(m), ms[1..], repl, budget))
      case Ok(Some(t)) =>
        Prepend(s[pos..m.start] + t + Gap(s, m), 1,
                Replaced(s, NextPos(m), ms[1..], repl, budget - 1))
  }

  ghost function Prepend(pre: bytes, n: nat, r: Option<(bytes, nat)>): Option<(bytes, nat)> {
    match r
    case None => None
    case Some((text, count)) => Some((pre + text, n + count))
  }

  lemma PrependTwice(a: bytes, b: bytes, m: nat, n: nat, r: Option<(bytes, nat)>)
    ensures Prepend(a, m, Prepend(b, n, r)) == Prepend(a + b, m + n, r)
  {
    if r.Some? {
      assert a + (b + r.value.0) == (a + b) + r.value.0;
    }
  }

  /** Every parenthesis outside an escape is matched. */
  predicate Balanced(p: bytes, i: nat, depth: nat)
    decreases |p| - i
  {
    if i >= |p| then depth == 0
    else if p[i] == PERCENT && i + 1 < |p| then Balanced(p, i + 2, depth)
    else if p[i] == LPAREN then Balanced(p, i + 1, depth + 1)
    else if p[i] == RPAREN then depth != 0 && Balanced(p, i + 1, depth - 1)
    else Balanced(p, i + 1, depth)
  }

  method ValidGmatchPattern(p: bytes) returns (ok: bool)
    ensures ok == Balanced(p, 0, 0)
  {
    var depth := 0;
    var i := 0;
    while i < |p|
      invariant 0 <= i && 0 <= depth
      invariant Balanced(p, 0, 0) == Balanced(p, i, depth)
    {
      if p[i] == PERCENT && i + 1 < |p| {
        i := i + 2;
        continue;
      }
      if p[i] == LPAREN {
        depth := depth + 1;
      } else if p[i] == RPAREN {
        if depth == 0 {
          return false;
        }
        depth := depth - 1;
      }
      i := i + 1;
    }
    return depth == 0;
  }

  /** Copies `data` to `out[n..]`. */
  method Append(out: array<byte>, n: nat, data: bytes)
    requires n + |data| <= out.Length
    modifies out
    ensures out[..n + |data|] == old(out[..n]) + data
  {
    for k := 0 to |data|
      invariant out[..n] == old(out[..n])
      invariant forall j :: 0 <= j < k ==> out[n + j] == data[j]
    {
      out[n + k] := data[k];
    }
    assert out[..n + |data|] == out[..n] + data;
  }

  /** Expands a template for one match into a buffer of its own. */
  method ExpandTemplate(s: bytes, m: Match, t: bytes) returns (r: Result<bytes, Error>)
    requires m.start <= m.end <= |s| && SpansIn(m.caps, |s|)
    ensures r == Expand(s, m, t, 0, [])
  {
    var buf := new byte[REPL_CAP](_ => 0);
    var len: nat, ri: nat := 0, 0;
    assert buf[..0] == [];
    while ri < |t|
      invariant len <= REPL_CAP
      invariant Expand(s, m, t, 0, []) == Expand(s, m, t, ri, buf[..len])
    {
      if t[ri] == PERCENT {
        if ri + 1 >= |t| {
          return Err(BadCapture);
        }
        var piece := Escape(s, m, t[ri + 1]);
        if piece.Err? {
          return Err(piece.error);
        }
        if len + |piece.value| > REPL_CAP {
          return Err(TooLong);
        }
        Append(buf, len, piece.value);
        len := len + |piece.value|;
        ri := ri + 2;
      } else {
        if len >= REPL_CAP {
          return Err(TooLong);
        }
        ghost var before := buf[..len];
        buf[len] := t[ri];
        assert buf[..len + 1] == before + [t[ri]];
        len := len + 1;
        ri := ri + 1;
      }
    }
    return Ok(buf[..len]);
  }

  /** Successive non-overlapping leftmost matches replaced, up to `maxN` substitutions. It
      succeeds exactly when the pattern is well formed, every replacement it needs can be
      computed, and the result fits the output buffer. */
  method StringGsub(s: bytes, p: bytes, repl: Repl, maxN: int) returns (r: Result<(bytes, nat), Error>)
    requires |s| <= STR_CAP
    ensures r == Err(MalformedPattern) <==> !Balanced(p, 0, 0)
    ensures Balanced(p, 0, 0) ==>
              Ordered(s, 0, Matches(s, p, 0)) &&
              var goal := Replaced(s, 0, Matches(s, p, 0), repl, if maxN < 0 then 0 else maxN);
              (r.Ok? <==> goal.Some? && |goal.value.0| <= STR_CAP) &&
              (r.Ok? ==> r.value == goal.value)
  {
    hide FindMatch, Replaced, Matches, Ordered, Chosen, Balanced, SpansIn;
    var budget := if maxN < 0 then 0 else maxN;
    var valid := ValidGmatchPattern(p);
    if !valid {
      return Err(MalformedPattern);
    }
    MatchesOrdered(s, p, 0);
    ghost var goal := Replaced(s, 0, Matches(s, p, 0), repl, budget);
    var out := new byte[STR_CAP](_ => 0);
    var outLen: nat, pos: nat, count: nat := 0, 0, 0;
    assert out[..0] == [];
    PrependNone(Replaced(s, 0, Matches(s, p, 0), repl, budget));
    while count < budget && pos <= |s|
      invariant outLen <= STR_CAP && count <= budget
      invariant Ordered(s, pos, Matches(s, p, pos))
      invariant goal == Prepend(out[..outLen], count, Replaced(s, pos, Matches(s, p, pos), repl, budget - count))
      decreases |s| + 1 - pos
    {
      var found := GmFind(s, p, pos);
      if found.None? {
        break;
      }
      var m := found.value;
      GsubStep(s, p, pos, repl, budget - count, out[..outLen], count, goal);
      var chosen := Choose(s, m, repl);
      if chosen.Err? {
        if outLen + (m.start - pos) > STR_CAP {
          return Err(TooLong);
        }
        return Err(chosen.error);
      }
      var text := if chosen.value.Some? then chosen.value.value else s[m.start..m.end];
      var step := s[pos..m.start] + text + Gap(s, m);
      if outLen + |step| > STR_CAP {
        return Err(TooLong);
      }
      Append(out, outLen, step);
      outLen := outLen + |step|;
      if chosen.value.Some? {
        count := count + 1;
      }
      pos := NextPos(m);
    }
    MatchesStep(s, p, pos);
    ReplacedStep(s, pos, Matches(s, p, pos), repl, budget - count);
    var tail := Tail(s, pos);
    if outLen + |tail| > STR_CAP {
      return Err(TooLong);
    }
    Append(out, outLen, tail);
    return Ok((out[..outLen + |tail|], count));
  }

  lemma MatchesStep(s: bytes, p: bytes, pos: nat)
    ensures Ordered(s, pos, Matches(s, p, pos))
    ensures pos > |s| || FindMatch(s, p, pos).None? ==> Matches(s, p, pos) == []
    ensures pos <= |s| && FindMatch(s, p, pos).Some? ==>
              var m := FindMatch(s, p, pos).value;
              pos <= m.start <= m.end <= |s| && SpansIn(m.caps, |s|) &&
              Ordered(s, NextPos(m), Matches(s, p, NextPos(m))) &&
              Matches(s, p, pos) == [m] + Matches(s, p, NextPos(m))
  {
    hide FindMatch;
    MatchesOrdered(s, p, pos);
    if pos <= |s| && FindMatch(s, p, pos).Some? {
      FoundInSubject(s, p, pos);
      MatchesOrdered(s, p, NextPos(FindMatch(s, p, pos).value));
    }
  }

  lemma ReplacedStep(s: bytes, pos: nat, ms: seq<Match>, repl: Repl, budget: nat)
    requires Ordered(s, pos, ms)
    ensures budget == 0 || ms == [] ==> Replaced(s, pos, ms, repl, budget) == Some((Tail(s, pos), 0))
    ensures budget != 0 && ms != [] ==>
              var m := ms[0];
              pos <= m.start <= m.end <= |s| && SpansIn(m.caps, |s|) && Ordered(s, NextPos(m), ms[1..]) &&
              Replaced(s, pos, ms, repl, budget) ==
              match Chosen(s, m, repl)
              case Err(_) => None
              case Ok(c) =>
                Prepend(s[pos..m.start] + (if c.Some? then c.value else s[m.start..m.end]) + Gap(s, m),
                        if c.Some? then 1 else 0,
                        Replaced(s, NextPos(m), ms[1..], repl, if c.Some? then budget - 1 else budget))
  {
    hide Chosen;
  }

  /** One match handled: `acc` and `count` are what has been written and replaced before it. */
  lemma GsubStep(s: bytes, p: bytes, pos: nat, repl: Repl, budget: nat, acc: bytes, count: nat, goal: Option<(bytes, nat)>)
    requires pos <= |s| && budget > 0 && FindMatch(s, p, pos).Some? && Ordered(s, pos, Matches(s, p, pos))
    requires goal == Prepend(acc, count, Replaced(s, pos, Matches(s, p, pos), repl, budget))
    ensures var m := FindMatch(s, p, pos).value;
            pos <= m.start <= m.end <= |s| && SpansIn(m.caps, |s|) && pos < NextPos(m) &&
            Ordered(s, NextPos(m), Matches(s, p, NextPos(m))) &&
            match Chosen(s, m, repl)
            case Err(_) => goal.None?
            case Ok(c) =>
              var n := if c.Some? then 1 else 0;
              goal == Prepend(acc + (s[pos..m.start] + (if c.Some? then c.value else s[m.start..m.end]) + Gap(s, m)),
                              count + n,
                              Replaced(s, NextPos(m), Matches(s, p, NextPos(m)), repl, budget - n))
  {
    hide FindMatch, Replaced, Matches, Ordered, Chosen, SpansIn, Gap;
    MatchesStep(s, p, pos);
    ReplacedStep(s, pos, Matches(s, p, pos), repl, budget);
    var m := FindMatch(s, p, pos).value;
    var c := Chosen(s, m, repl);
    if c.Ok? {
      var n := if c.value.Some? then 1 else 0;
      PrependTwice(acc, s[pos..m.start] + (if c.value.Some? then c.value.value else s[m.start..m.end]) + Gap(s, m), count, n,
                   Replaced(s, NextPos(m), Matches(s, p, NextPos(m)), repl, budget - n));
    }
  }

  lemma PrependNone(r: Option<(bytes, nat)>)
    ensures Prepend([], 0, r) == r
  {
    if r.Some? {
      assert [] + r.value.0 == r.value.0;
    }
  }

  method Choose(s: bytes, m: Match, repl: Repl) returns (r: Result<Option<bytes>, Error>)
    requires m.start <= m.end <= |s| && SpansIn(m.caps, |s|)
    ensures r == Chosen(s, m, repl)
    ensures r.Err? ==> r.error != MalformedPattern
  {
    match repl
    case Template(t) =>
      var x := ExpandTemplate(s, m, t);
      ExpandError(s, m, t, 0, []);
      return match x case Ok(text) => Ok(Some(text)) case Err(e) => Err(e);
    case Number(text) =>
      if |text| > REPL_CAP {
        return Err(TooLong);
      }
      return Ok(Some(text));
    case Lookup(table) =>
      var key := if m.caps == [] then s[m.start..m.end] else s[m.caps[0].0..m.caps[0].1];
      match table(key) {
        case Keep => return Ok(None);
        case NoText => return Err(BadValue);
        case Text(text) =>
          if |text| > REPL_CAP {
            return Err(TooLong);
          }
          return Ok(Some(text));
      }
    case Other => return Err(BadValue);
  }

  lemma {:induction false} ExpandError(s: bytes, m: Match, t: bytes, ri: nat, acc: bytes)
    requires m.start <= m.end <= |s| && SpansIn(m.caps, |s|)
    ensures var r := Expand(s, m, t, ri, acc); r.Err? ==> r.error != MalformedPattern
    decreases |t| - ri
  {
    if ri < |t| {
      if t[ri] == PERCENT {
        if ri + 1 < |t| {
          var e := Escape(s, m, t[ri + 1]);
          if e.Ok? { ExpandError(s, m, t, ri + 2, acc + e.value); }
        }
      } else {
        ExpandError(s, m, t, ri + 1, acc + [t[ri]]);
      }
    }
  }

  // ----- how much is replaced -----

  /** A template or a number replaces every match up to the limit, and the limit counts
      replacements only. */
  lemma {:induction false} CountIsMin(s: bytes, pos: nat, ms: seq<Match>, repl: Repl, budget: nat)
    requires Ordered(s, pos, ms) && (repl.Template? || repl.Number?)
    ensures var r := Replaced(s, pos, ms, repl, budget);
            r.Some? ==> r.value.1 == if |ms| <= budget then |ms| else budget
    decreases |ms|
  {
    hide Chosen, Replaced, Ordered, SpansIn;
    ReplacesAlways(s, ms, repl);
    ReplacedStep(s, pos, ms, repl, budget);
    if budget > 0 && ms != [] {
      CountIsMin(s, NextPos(ms[0]), ms[1..], repl, budget - 1);
    }
  }

  lemma ReplacesAlways(s: bytes, ms: seq<Match>, repl: Repl)
    requires repl.Template? || repl.Number?
    ensures ms != [] && ms[0].start <= ms[0].end <= |s| && SpansIn(ms[0].caps, |s|) ==> Chosen(s, ms[0], repl) != Ok(None)
  {
    hide Expand, Ordered;
  }

  /** A table that has nothing for any of the keys changes nothing, and counts nothing. */
  lemma {:induction false} NoHitsKeeps(s: bytes, pos: nat, ms: seq<Match>, table: bytes -> Hit, budget: nat)
    requires Ordered(s, pos, ms) && forall key :: table(key) == Keep
    ensures Replaced(s, pos, ms, Lookup(table), budget) == Some((Tail(s, pos), 0))
    decreases |ms|
  {
    hide Replaced, Ordered, SpansIn, Tail, Gap;
    ReplacedStep(s, pos, ms, Lookup(table), budget);
    if budget > 0 && ms != [] {
      var m := ms[0];
      assert Chosen(s, m, Lookup(table)) == Ok(None);
      NoHitsKeeps(s, NextPos(m), ms[1..], table, budget);
      TailSplit(s, pos, m);
    }
  }

  // ----- conservation -----

  /** The replacement puts every match back unchanged. */
  ghost predicate Identity(s: bytes, repl: Repl) {
    forall m: Match | m.start <= m.end <= |s| && SpansIn(m.caps, |s|) ::
      var c := Chosen(s, m, repl);
      c.Ok? && c.value.Some? ==> c.value.value == s[m.start..m.end]
  }

  /** With replacements that put each match back, nothing is lost, added or reordered. */
  lemma {:induction false} GsubConserves(s: bytes, pos: nat, ms: seq<Match>, repl: Repl, budget: nat)
    requires Ordered(s, pos, ms) && Identity(s, repl)
    ensures var r := Replaced(s, pos, ms, repl, budget);
            r.Some? ==> r.value.0 == Tail(s, pos)
    decreases |ms|
  {
    hide Replaced, Chosen, Ordered, SpansIn;
    ReplacedStep(s, pos, ms, repl, budget);
    if budget > 0 && ms != [] {
      var m := ms[0];
      var c := Chosen(s, m, repl);
      if c.Ok? {
        GsubConserves(s, NextPos(m), ms[1..], repl, if c.value.Some? then budget - 1 else budget);
        TailSplit(s, pos, m);
      }
    }
  }

  lemma TailSplit(s: bytes, pos: nat, m: Match)
    requires pos <= m.start <= m.end <= |s|
    ensures Tail(s, pos) == s[pos..m.start] + s[m.start..m.end] + Gap(s, m) + Tail(s, NextPos(m))
  {}

  /** `%0` puts every match back. */
  lemma WholeMatchIsIdentity(s: bytes)
    ensures Identity(s, Template([PERCENT, 0x30]))
  {
    var t: bytes := [PERCENT, 0x30];
    forall m: Match | m.start <= m.end <= |s| && SpansIn(m.caps, |s|)
      ensures var c := Chosen(s, m, Template(t));
              c.Ok? && c.value.Some? ==> c.value.value == s[m.start..m.end]
    {
      var w := s[m.start..m.end];
      assert [] + w == w;
      assert Expand(s, m, t, 2, w) == Ok(w);
    }
  }

  /** `gsub` with replacement `%0` returns the subject, for every pattern and limit, whenever
      it succeeds. */
  method GsubWholeMatch(s: bytes, p: bytes, maxN: int) returns (r: Result<(bytes, nat), Error>)
    requires |s| <= STR_CAP
    ensures r.Ok? ==> r.value.0 == s
  {
    r := StringGsub(s, p, Template([PERCENT, 0x30]), maxN);
    if r.Ok? {
      WholeMatchIsIdentity(s);
      GsubConserves(s, 0, Matches(s, p, 0), Template([PERCENT, 0x30]), if maxN < 0 then 0 else maxN);
    }
  }
}
