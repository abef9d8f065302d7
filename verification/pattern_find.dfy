/** Searching a subject for a pattern: `string.find`, the search under `gmatch` and `gsub`,
    and the sequence of successive matches. */
module PatternFind {
  import opened Core
  import opened PatternItems
  import opened PatternMatch
  import opened PatternCaptures
  import opened PatternSpans

  predicate Anchored(p: bytes) { p != [] && p[0] == CARET }

  function Body(p: bytes): bytes { if Anchored(p) then p[1..] else p }

  /** First start at or after `i` where `t` matches; only `i` itself when anchored. */
  ghost function FirstStart(s: bytes, t: Pat, i: nat, anchored: bool): Option<nat>
    decreases |s| - i
  {
    if MatchLen(s, i, t).Some? then Some(i)
    else if anchored || i >= |s| then None
    else FirstStart(s, t, i + 1, anchored)
  }

  /** A start the search may try. */
  predicate Candidate(s: bytes, i: nat, anchored: bool, k: nat) {
    k == i || (!anchored && i <= k <= |s|)
  }

  /** The search finds the leftmost candidate with a match, and fails only if there is none. */
  lemma {:induction false} FirstStartIsLeftmost(s: bytes, t: Pat, i: nat, anchored: bool)
    ensures var r := FirstStart(s, t, i, anchored);
            r.Some? ==> Candidate(s, i, anchored, r.value) && MatchLen(s, r.value, t).Some? &&
                        forall k :: Candidate(s, i, anchored, k) && MatchLen(s, k, t).Some? ==> r.value <= k
    ensures FirstStart(s, t, i, anchored).None? ==>
              forall k :: Candidate(s, i, anchored, k) ==> MatchLen(s, k, t).None?
    decreases |s| - i
  {
    hide MatchLen;
    if MatchLen(s, i, t).None? && !anchored && i < |s| {
      FirstStartIsLeftmost(s, t, i + 1, anchored);
      assert forall k :: Candidate(s, i, anchored, k) <==> k == i || Candidate(s, i + 1, anchored, k);
    }
  }

  // ----- string.find -----

  /** 1-based inclusive bounds of the leftmost match, as `string.find` reports them. */
  ghost function Found(s: bytes, p: bytes, start: nat): Option<(nat, nat)> {
    var t := Parse(Body(p), 0, false);
    match FirstStart(s, t, start, Anchored(p))
    case None => None
    case Some(k) => Some((k + 1, k + if MatchLen(s, k, t).Some? then MatchLen(s, k, t).value else 0))
  }

  method StringFind(s: bytes, p: bytes, start: nat) returns (r: Option<(nat, nat)>)
    ensures r == Found(s, p, start)
  {
    hide MatchLen, Parse;
    if p == [] {
      ParseStep(p, 0, false);
      LenEnds(s, start);
      return Some((start + 1, start));
    }
    var anchored := p[0] == CARET;
    var body := if anchored then p[1..] else p;
    ghost var t := Parse(body, 0, false);
    var i := start;
    while true
      invariant FirstStart(s, t, start, anchored) == FirstStart(s, t, i, anchored)
      decreases if i < |s| then |s| - i else 0
    {
      var len := MatchHere(s, i, body);
      if len.Some? {
        return Some((i + 1, i + len.value));
      }
      if anchored || i >= |s| {
        return None;
      }
      i := i + 1;
    }
  }

  predicate OccursAt(s: bytes, p: bytes, i: nat) {
    i + |p| <= |s| && s[i..i + |p|] == p
  }

  /** The first literal occurrence. The source computes `|s| - |p|` unsigned, so a non-empty
      pattern longer than the subject, searched for inside the subject, aborts: at the subtraction
      where overflow is checked, and otherwise at the first slice. */
  method FindPlain(s: bytes, p: bytes, start: nat) returns (r: Checked<Option<(nat, nat)>>)
    ensures r.Panicked? <==> p != [] && start <= |s| < |p|
    ensures p == [] ==> r == Returned(Some((start + 1, start)))
    ensures r.Returned? && r.value.Some? && p != [] ==>
              var (first, last) := r.value.value;
              first == last + 1 - |p| && first > start && OccursAt(s, p, first - 1) &&
              forall k :: start <= k < first - 1 ==> !OccursAt(s, p, k)
    ensures r == Returned(None) ==> forall k :: start <= k ==> !OccursAt(s, p, k)
  {
    if p == [] {
      return Returned(Some((start + 1, start)));
    }
    if start > |s| {
      return Returned(None);
    }
    if |s| < |p| {
      return Panicked;
    }
    var limit := |s| - |p|;
    var i := start;
    while i <= limit
      invariant start <= i
      invariant forall k :: start <= k < i ==> !OccursAt(s, p, k)
    {
      if s[i..i + |p|] == p {
        return Returned(Some((i + 1, i + |p|)));
      }
      i := i + 1;
    }
    return Returned(None);
  }

  // ----- the search with captures -----

  datatype Match = Match(start: nat, end: nat, caps: Spans)

  ghost function FindMatch(s: bytes, p: bytes, start: nat): Option<Match> {
    var t := Parse(Body(p), 0, true);
    match FirstStart(s, t, start, Anchored(p))
    case None => None
    case Some(k) =>
      var r := Gm(s, k, t, []);
      Some(Match(k, k + if r.len.Some? then r.len.value else 0, r.caps))
  }

  /** `string.find` and the capturing search agree on every pattern that opens no group, and
      in particular on every pattern without the byte `(`. */
  lemma FindsAgree(s: bytes, p: bytes, start: nat)
    requires !HasGroup(Parse(Body(p), 0, true)) || LPAREN !in p
    ensures Found(s, p, start) ==
            match FindMatch(s, p, start)
            case None => None
            case Some(m) => Some((m.start + 1, m.end))
    ensures FindMatch(s, p, start).Some? ==> FindMatch(s, p, start).value.caps == []
  {
    hide MatchLen, Parse, Gm, HasGroup;
    if LPAREN !in p {
      NoParenNoGroup(Body(p), 0);
    }
    ParseWithoutGroups(Body(p), 0);
    var t := Parse(Body(p), 0, true);
    var k := FirstStart(s, t, start, Anchored(p));
    if k.Some? {
      GmLen(s, k.value, t, []);
      NoGroupNoSpans(s, k.value, t, []);
    }
  }

  /** A found match lies in the subject, captures included, exactly when the search was
      started inside it. */
  lemma FoundInSubject(s: bytes, p: bytes, start: nat)
    requires FindMatch(s, p, start).Some?
    ensures var m := FindMatch(s, p, start).value;
            start <= m.start <= m.end &&
            (start <= |s| <==> m.end <= |s| && SpansIn(m.caps, |s|))
  {
    hide MatchLen, Parse, Gm;
    var t := Parse(Body(p), 0, true);
    FirstStartIsLeftmost(s, t, start, Anchored(p));
    var m := FindMatch(s, p, start).value;
    GmLen(s, m.start, t, []);
    if start <= |s| {
      MatchInSubject(s, m.start, t);
      GmSpansIn(s, m.start, t, []);
    }
  }

  method GmFind(s: bytes, p: bytes, start: nat) returns (r: Option<Match>)
    ensures r == FindMatch(s, p, start)
  {
    hide MatchLen, Parse, Gm;
    if p == [] {
      ParseStep(p, 0, true);
      LenEnds(s, start);
      GmEnds(s, start, []);
      return Some(Match(start, start, []));
    }
    var anchored := p[0] == CARET;
    var body := if anchored then p[1..] else p;
    ghost var t := Parse(body, 0, true);
    var i := start;
    while true
      invariant FirstStart(s, t, start, anchored) == FirstStart(s, t, i, anchored)
      decreases if i < |s| then |s| - i else 0
    {
      var caps := new (nat, nat)[GM_CAPS](_ => (0, 0));
      var len, ncap := GmMatch(s, i, body, 0, caps, 0);
      GmLen(s, i, t, []);
      assert caps[..0] == [];
      if len.Some? {
        return Some(Match(i, i + len.value, caps[..ncap]));
      }
      if anchored || i >= |s| {
        return None;
      }
      i := i + 1;
    }
  }

  /** Matches `p` from byte `pi` on, recording spans in `caps` from slot `ncap0` on. */
  method GmMatch(s: bytes, si0: nat, p: bytes, pi0: nat, caps: array<(nat, nat)>, ncap0: nat)
    returns (r: Option<nat>, ncap: nat)
    requires caps.Length == GM_CAPS && ncap0 <= GM_CAPS
    modifies caps
    ensures ncap <= GM_CAPS
    ensures Outcome(r, caps[..ncap]) == Gm(s, si0, Parse(p, pi0, true), old(caps[..ncap0]))
    decreases |p| - pi0, 1
  {
    hide MatchLen, Gm, GmDown, GmUp, Parse, UnitAt, ItemLen, CloseParen, Take;
    var si, pi := si0, pi0;
    ncap := ncap0;
    ghost var goal := Gm(s, si0, Parse(p, pi0, true), caps[..ncap0]);
    while pi < |p|
      invariant si0 <= si && pi0 <= pi && ncap <= GM_CAPS
      invariant goal == After(si - si0, Gm(s, si, Parse(p, pi, true), caps[..ncap]))
      decreases |p| - pi
    {
      ParseStep(p, pi, true);
      GmEnds(s, si, caps[..ncap]);
      if p[pi] == DOLLAR {
        r := if si == |s| then Some(si - si0) else None;
        return;
      }
      if p[pi] == LPAREN {
        var close := FindCloseParen(p, pi);
        if close.None? {
          r := None;
          return;
        }
        var len;
        len, ncap := TakeGroup(s, si, p[pi + 1..close.value], Parse(p, close.value + 1, true), caps, ncap);
        if len.None? {
          r := None;
          return;
        }
        si := si + len.value;
        pi := close.value + 1;
        continue;
      }
      var itemLen := ItemSize(p, pi);
      if itemLen == 0 {
        r := None;
        return;
      }
      var quant := QuantAt(p, pi + itemLen);
      if quant == Once {
        GmOnce(s, si, UnitAt(p, pi), Parse(p, pi + itemLen, true), caps[..ncap]);
        var n := MatchItem(s, si, p, pi);
        if n.None? {
          r := None;
          return;
        }
        si := si + n.value;
        pi := pi + itemLen;
      } else {
        r, ncap := GmQuantified(s, si, p, pi, pi + itemLen + 1, quant, caps, ncap);
        r := if r.Some? then Some(si - si0 + r.value) else None;
        return;
      }
    }
    ParseStep(p, pi, true);
    GmEnds(s, si, caps[..ncap]);
    r := Some(si - si0);
  }

  /** A capture group: its body is matched on its own, and its span recorded while there is room. */
  method TakeGroup(s: bytes, si: nat, body: bytes, ghost rest: Pat, caps: array<(nat, nat)>, ncap0: nat)
    returns (r: Option<nat>, ncap: nat)
    requires caps.Length == GM_CAPS && ncap0 <= GM_CAPS
    modifies caps
    ensures ncap <= GM_CAPS
    ensures Gm(s, si, Group(Parse(body, 0, false), rest), old(caps[..ncap0])) ==
            if r.Some? then After(r.value, Gm(s, si + r.value, rest, caps[..ncap])) else Outcome(None, caps[..ncap])
  {
    hide MatchLen, Gm, Parse;
    ncap := ncap0;
    r := MatchHere(s, si, body);
    GmGroup(s, si, Parse(body, 0, false), rest, caps[..ncap]);
    if r.Some? {
      ghost var before := caps[..ncap];
      if ncap < GM_CAPS {
        caps[ncap] := (si, si + r.value);
        ncap := ncap + 1;
      }
      assert caps[..ncap] == Record(before, si, si + r.value);
    }
  }

  /** A quantified item and the rest of the pattern. */
  method GmQuantified(s: bytes, si: nat, p: bytes, pi: nat, restPi: nat, quant: Quant, caps: array<(nat, nat)>, ncap0: nat)
    returns (r: Option<nat>, ncap: nat)
    requires caps.Length == GM_CAPS && ncap0 <= GM_CAPS && pi < restPi <= |p| && quant != Once
    modifies caps
    ensures ncap <= GM_CAPS
    ensures Outcome(r, caps[..ncap]) == Gm(s, si, Then(UnitAt(p, pi), quant, Parse(p, restPi, true)), old(caps[..ncap0]))
    decreases |p| - restPi, 3
  {
    hide MatchLen, Gm, GmDown, GmUp, Parse, UnitAt, Take;
    GmThen(s, si, UnitAt(p, pi), Parse(p, restPi, true), caps[..ncap0]);
    if quant == Opt {
      r, ncap := GmOptional(s, si, p, pi, restPi, caps, ncap0);
    } else if quant == Lazy {
      r, ncap := GmLazy(s, si, p, pi, restPi, caps, ncap0);
    } else {
      r, ncap := GmGreedy(s, si, p, pi, restPi, if quant == Star then 0 else 1, caps, ncap0);
    }
  }

  method GmOptional(s: bytes, si: nat, p: bytes, pi: nat, restPi: nat, caps: array<(nat, nat)>, ncap0: nat)
    returns (r: Option<nat>, ncap: nat)
    requires caps.Length == GM_CAPS && ncap0 <= GM_CAPS && pi < restPi <= |p|
    modifies caps
    ensures ncap <= GM_CAPS
    ensures Outcome(r, caps[..ncap]) ==
            GmDown(s, si, UnitAt(p, pi), Parse(p, restPi, true), if Take(UnitAt(p, pi), s, si).Some? then 1 else 0, 0,
                   old(caps[..ncap0]))
    decreases |p| - restPi, 2
  {
    hide Gm, GmDown, Parse, UnitAt, UnitAccepts;
    ghost var u, rest := UnitAt(p, pi), Parse(p, restPi, true);
    ncap := ncap0;
    GmDownStep(s, si, u, rest, 1, 0, caps[..ncap]);
    var n := MatchItem(s, si, p, pi);
    if n.Some? {
      r, ncap := GmMatch(s, si + n.value, p, restPi, caps, ncap);
      if r.Some? {
        r := Some(n.value + r.value);
        return;
      }
    }
    GmDownStep(s, si, u, rest, 0, 0, caps[..ncap]);
    r, ncap := GmMatch(s, si, p, restPi, caps, ncap);
  }

  method GmGreedy(s: bytes, si: nat, p: bytes, pi: nat, restPi: nat, min: nat, caps: array<(nat, nat)>, ncap0: nat)
    returns (r: Option<nat>, ncap: nat)
    requires caps.Length == GM_CAPS && ncap0 <= GM_CAPS && pi < restPi <= |p|
    modifies caps
    ensures ncap <= GM_CAPS
    ensures Outcome(r, caps[..ncap]) ==
            GmDown(s, si, UnitAt(p, pi), Parse(p, restPi, true), Uses(UnitAt(p, pi), s, si), min, old(caps[..ncap0]))
    decreases |p| - restPi, 2
  {
    hide Gm, GmDown, Parse, UnitAt, UnitAccepts, Uses, Take;
    ghost var u, rest := UnitAt(p, pi), Parse(p, restPi, true);
    ncap := ncap0;
    var max := CountUses(s, si, p, pi);
    UsesIsMax(u, s, si, 0);
    var k := max;
    ghost var goal := GmDown(s, si, u, rest, max, min, caps[..ncap]);
    while true
      invariant 0 <= k && (u.Anchor? ==> k == 0) && ncap <= GM_CAPS
      invariant goal == GmDown(s, si, u, rest, k, min, caps[..ncap])
      decreases k
    {
      GmDownStep(s, si, u, rest, k, min, caps[..ncap]);
      if k >= min {
        r, ncap := GmMatch(s, si + k, p, restPi, caps, ncap);
        if r.Some? {
          r := Some(k + r.value);
          return;
        }
      }
      if k == 0 {
        r := None;
        return;
      }
      if k < min {
        GmDownStep(s, si, u, rest, k - 1, min, caps[..ncap]);
      }
      k := k - 1;
    }
  }

  method GmLazy(s: bytes, si: nat, p: bytes, pi: nat, restPi: nat, caps: array<(nat, nat)>, ncap0: nat)
    returns (r: Option<nat>, ncap: nat)
    requires caps.Length == GM_CAPS && ncap0 <= GM_CAPS && pi < restPi <= |p|
    modifies caps
    ensures ncap <= GM_CAPS
    ensures Outcome(r, caps[..ncap]) ==
            GmUp(s, si, UnitAt(p, pi), Parse(p, restPi, true), 0, old(caps[..ncap0]))
    decreases |p| - restPi, 2
  {
    hide Gm, GmUp, Parse, UnitAt, UnitAccepts;
    ghost var u, rest := UnitAt(p, pi), Parse(p, restPi, true);
    ncap := ncap0;
    var end := si;
    ghost var goal := GmUp(s, si, u, rest, 0, caps[..ncap]);
    while true
      invariant si <= end && ncap <= GM_CAPS
      invariant goal == GmUp(s, si, u, rest, end - si, caps[..ncap])
      decreases if end <= |s| then |s| - end + 1 else 0
    {
      GmUpStep(s, si, u, rest, end - si, caps[..ncap]);
      r, ncap := GmMatch(s, end, p, restPi, caps, ncap);
      if r.Some? {
        r := Some(end - si + r.value);
        return;
      }
      var n := MatchItem(s, end, p, pi);
      if n.Some? && n.value > 0 {
        end := end + n.value;
      } else {
        r := None;
        return;
      }
    }
  }
}
