/** Which spans a successful search leaves behind, compared with the groups of its match. */
module PatternSpans {
  import opened Core
  import opened PatternItems
  import opened PatternMatch
  import opened PatternCaptures

  /** The spans of the groups along a derivation. */
  function GroupSpans(i: nat, t: Pat, ks: seq<nat>): Spans
    decreases t
  {
    match t
    case Group(_, rest) => if ks == [] then [] else [(i, i + ks[0])] + GroupSpans(i + ks[0], rest, ks[1..])
    case Then(u, _, rest) => if ks == [] then [] else GroupSpans(i + Cover(u, ks[0]), rest, ks[1..])
    case _ => []
  }

  function Groups(t: Pat): nat {
    match t
    case Group(_, rest) => 1 + Groups(rest)
    case Then(_, _, rest) => Groups(rest)
    case _ => 0
  }

  function FirstEight(caps: Spans): Spans {
    if |caps| <= GM_CAPS then caps else caps[..GM_CAPS]
  }

  // ----- every span the search comes by -----

  /** The spans recorded on the way if there were room for all. */
  ghost function Trace(s: bytes, i: nat, t: Pat): Spans
    decreases t, 0
  {
    match t
    case Group(inner, rest) =>
      (match MatchLen(s, i, inner)
       case None => []
       case Some(n) => [(i, i + n)] + Trace(s, i + n, rest))
    case Then(u, q, rest) =>
      (match q
       case Once => if Take(u, s, i).Some? then Trace(s, i + Cover(u, 1), rest) else []
       case Opt => TraceDown(s, i, u, rest, if Take(u, s, i).Some? then 1 else 0, 0)
       case Star => TraceDown(s, i, u, rest, Uses(u, s, i), 0)
       case Plus => TraceDown(s, i, u, rest, Uses(u, s, i), 1)
       case Lazy => TraceUp(s, i, u, rest, 0))
    case _ => []
  }

  ghost function TraceDown(s: bytes, i: nat, u: Unit, rest: Pat, k: nat, min: nat): Spans
    decreases rest, k + 1
  {
    if k < min then []
    else
      Trace(s, i + Cover(u, k), rest) +
      if MatchLen(s, i + Cover(u, k), rest).Some? || k == 0 then [] else TraceDown(s, i, u, rest, k - 1, min)
  }

  ghost function TraceUp(s: bytes, i: nat, u: Unit, rest: Pat, k: nat): Spans
    decreases rest, if i + k <= |s| then |s| - (i + k) + 1 else 1
  {
    Trace(s, i + k, rest) +
    if MatchLen(s, i + k, rest).Some? || Take(u, s, i + k) != Some(1) then [] else TraceUp(s, i, u, rest, k + 1)
  }

  lemma TraceGroup(s: bytes, i: nat, inner: Pat, rest: Pat)
    ensures Trace(s, i, Group(inner, rest)) ==
            match MatchLen(s, i, inner)
            case None => []
            case Some(n) => [(i, i + n)] + Trace(s, i + n, rest)
  {
    hide MatchLen, TraceDown, TraceUp;
  }

  lemma TraceThen(s: bytes, i: nat, u: Unit, rest: Pat)
    ensures Trace(s, i, Then(u, Once, rest)) == if Take(u, s, i).Some? then Trace(s, i + Cover(u, 1), rest) else []
    ensures Trace(s, i, Then(u, Opt, rest)) == TraceDown(s, i, u, rest, if Take(u, s, i).Some? then 1 else 0, 0)
    ensures Trace(s, i, Then(u, Star, rest)) == TraceDown(s, i, u, rest, Uses(u, s, i), 0)
    ensures Trace(s, i, Then(u, Plus, rest)) == TraceDown(s, i, u, rest, Uses(u, s, i), 1)
    ensures Trace(s, i, Then(u, Lazy, rest)) == TraceUp(s, i, u, rest, 0)
  {
    hide MatchLen, TraceDown, TraceUp, Uses, Take;
  }

  lemma FirstEightMore(caps: Spans, a: Spans, b: Spans)
    requires |caps| <= GM_CAPS
    ensures FirstEight(FirstEight(caps + a) + b) == FirstEight(caps + (a + b))
  {
    assert caps + (a + b) == caps + a + b;
    if |caps + a| > GM_CAPS {
      assert ((caps + a)[..GM_CAPS] + b)[..GM_CAPS] == (caps + a + b)[..GM_CAPS];
    }
  }

  lemma RecordIs(caps: Spans, i: nat, end: nat)
    requires |caps| <= GM_CAPS
    ensures Record(caps, i, end) == FirstEight(caps + [(i, end)])
  {}

  lemma NoMore(caps: Spans)
    requires |caps| <= GM_CAPS
    ensures FirstEight(caps + []) == caps
  {
    assert caps + [] == caps;
  }

  /** The spans left behind are the first eight of those the search comes by. */
  lemma {:induction false} GmTrace(s: bytes, i: nat, t: Pat, caps: Spans)
    requires |caps| <= GM_CAPS
    ensures Gm(s, i, t, caps).caps == FirstEight(caps + Trace(s, i, t))
    decreases t, 0
  {
    hide MatchLen, Gm, GmDown, GmUp, Trace, TraceDown, TraceUp, FirstEight, Record, Take, Uses;
    NoMore(caps);
    EndsTrace(s, i, t);
    match t
    case Group(inner, rest) =>
      TraceGroup(s, i, inner, rest);
      GmGroup(s, i, inner, rest, caps);
      var n := MatchLen(s, i, inner);
      if n.Some? {
        RecordIs(caps, i, i + n.value);
        GmTrace(s, i + n.value, rest, Record(caps, i, i + n.value));
        FirstEightMore(caps, [(i, i + n.value)], Trace(s, i + n.value, rest));
      }
    case Then(u, q, rest) => GmTraceThen(s, i, u, q, rest, caps);
    case _ => GmEnds(s, i, caps);
  }

  lemma {:induction false} GmTraceThen(s: bytes, i: nat, u: Unit, q: Quant, rest: Pat, caps: Spans)
    requires |caps| <= GM_CAPS
    ensures Gm(s, i, Then(u, q, rest), caps).caps == FirstEight(caps + Trace(s, i, Then(u, q, rest)))
    decreases rest, |s| + Uses(u, s, i) + 4
  {
    hide MatchLen, Gm, GmDown, GmUp, Trace, TraceDown, TraceUp, FirstEight, Uses;
    NoMore(caps);
    TraceThen(s, i, u, rest);
    GmThen(s, i, u, rest, caps);
    match q {
      case Once =>
        GmOnce(s, i, u, rest, caps);
        if Take(u, s, i).Some? {
          GmTrace(s, i + Cover(u, 1), rest, caps);
        }
      case Opt => GmTraceDown(s, i, u, rest, if Take(u, s, i).Some? then 1 else 0, 0, caps);
      case Star => GmTraceDown(s, i, u, rest, Uses(u, s, i), 0, caps);
      case Plus => GmTraceDown(s, i, u, rest, Uses(u, s, i), 1, caps);
      case Lazy => GmTraceUp(s, i, u, rest, 0, caps);
    }
  }

  lemma {:induction false} GmTraceDown(s: bytes, i: nat, u: Unit, rest: Pat, k: nat, min: nat, caps: Spans)
    requires |caps| <= GM_CAPS
    ensures GmDown(s, i, u, rest, k, min, caps).caps == FirstEight(caps + TraceDown(s, i, u, rest, k, min))
    decreases rest, k + 1
  {
    hide MatchLen, Gm, GmDown, Trace, FirstEight;
    NoMore(caps);
    GmDownStep(s, i, u, rest, k, min, caps);
    if k >= min {
      var j := i + Cover(u, k);
      GmLen(s, j, rest, caps);
      GmTrace(s, j, rest, caps);
      var r := Gm(s, j, rest, caps);
      assert Trace(s, j, rest) + [] == Trace(s, j, rest);
      if r.len.None? && k > 0 {
        EightAtMost(caps + Trace(s, j, rest));
        GmTraceDown(s, i, u, rest, k - 1, min, r.caps);
        FirstEightMore(caps, Trace(s, j, rest), TraceDown(s, i, u, rest, k - 1, min));
      }
    }
  }

  lemma {:induction false} GmTraceUp(s: bytes, i: nat, u: Unit, rest: Pat, k: nat, caps: Spans)
    requires |caps| <= GM_CAPS
    ensures GmUp(s, i, u, rest, k, caps).caps == FirstEight(caps + TraceUp(s, i, u, rest, k))
    decreases rest, if i + k <= |s| then |s| - (i + k) + 1 else 1
  {
    hide MatchLen, Gm, GmUp, Trace, FirstEight;
    GmUpStep(s, i, u, rest, k, caps);
    GmLen(s, i + k, rest, caps);
    GmTrace(s, i + k, rest, caps);
    var r := Gm(s, i + k, rest, caps);
    assert Trace(s, i + k, rest) + [] == Trace(s, i + k, rest);
    if r.len.None? && Take(u, s, i + k) == Some(1) {
      EightAtMost(caps + Trace(s, i + k, rest));
      GmTraceUp(s, i, u, rest, k + 1, r.caps);
      FirstEightMore(caps, Trace(s, i + k, rest), TraceUp(s, i, u, rest, k + 1));
    }
  }

  lemma EightAtMost(caps: Spans)
    ensures |FirstEight(caps)| <= GM_CAPS
  {}

  // ----- a property of every attempt -----

  /** No spans are come by where no group is opened. */
  lemma {:induction false} NoGroupNoTrace(s: bytes, i: nat, t: Pat)
    requires !HasGroup(t)
    ensures Trace(s, i, t) == []
    decreases t, 0
  {
    hide MatchLen, TraceDown, TraceUp, Uses, Take;
    match t
    case Then(u, q, rest) =>
      match q {
        case Once => NoGroupNoTrace(s, i + Cover(u, 1), rest);
        case Opt => NoGroupDown(s, i, u, rest, if Take(u, s, i).Some? then 1 else 0, 0);
        case Star => NoGroupDown(s, i, u, rest, Uses(u, s, i), 0);
        case Plus => NoGroupDown(s, i, u, rest, Uses(u, s, i), 1);
        case Lazy => NoGroupUp(s, i, u, rest, 0);
      }
    case _ =>
  }

  lemma {:induction false} NoGroupDown(s: bytes, i: nat, u: Unit, rest: Pat, k: nat, min: nat)
    requires !HasGroup(rest)
    ensures TraceDown(s, i, u, rest, k, min) == []
    decreases rest, k + 1
  {
    hide Trace, MatchLen, HasGroup;
    if k >= min {
      NoGroupNoTrace(s, i + Cover(u, k), rest);
      if k > 0 {
        NoGroupDown(s, i, u, rest, k - 1, min);
      }
    }
  }

  lemma {:induction false} NoGroupUp(s: bytes, i: nat, u: Unit, rest: Pat, k: nat)
    requires !HasGroup(rest)
    ensures TraceUp(s, i, u, rest, k) == []
    decreases rest, if i + k <= |s| then |s| - (i + k) + 1 else 1
  {
    hide Trace, MatchLen, HasGroup;
    NoGroupNoTrace(s, i + k, rest);
    if Take(u, s, i + k) == Some(1) {
      NoGroupUp(s, i, u, rest, k + 1);
    }
  }

  lemma NoGroupNoSpans(s: bytes, i: nat, t: Pat, caps: Spans)
    requires !HasGroup(t) && |caps| <= GM_CAPS
    ensures Gm(s, i, t, caps).caps == caps
  {
    hide Gm, Trace, HasGroup;
    NoGroupNoTrace(s, i, t);
    GmTrace(s, i, t, caps);
    NoMore(caps);
  }

  // ----- the groups of the match are among them -----

  /** `a` is left when some of `b` is struck out. */
  ghost predicate Within(a: Spans, b: Spans)
    decreases |b|
  {
    a == [] || (b != [] && ((a[0] == b[0] && Within(a[1..], b[1..])) || Within(a, b[1..])))
  }

  lemma {:induction false} WithinBehind(x: Spans, a: Spans, b: Spans)
    requires Within(a, b)
    ensures Within(a, x + b)
  {
    if x == [] {
      assert x + b == b;
    } else {
      assert (x + b)[1..] == x[1..] + b;
      WithinBehind(x[1..], a, b);
    }
  }

  lemma WithinCons(c: (nat, nat), a: Spans, b: Spans)
    requires Within(a, b)
    ensures Within([c] + a, [c] + b)
  {
    assert ([c] + a)[1..] == a && ([c] + b)[1..] == b;
  }

  lemma {:induction false} WithinLength(a: Spans, b: Spans)
    requires Within(a, b)
    ensures |a| <= |b| && (|a| == |b| ==> a == b)
    decreases |b|
  {
    if a != [] {
      if a[0] == b[0] && Within(a[1..], b[1..]) {
        WithinLength(a[1..], b[1..]);
        assert a == [a[0]] + a[1..] && b == [b[0]] + b[1..];
      } else {
        WithinLength(a, b[1..]);
      }
    }
  }

  lemma {:induction false} GroupSpansCons(i: nat, inner: Pat, rest: Pat, k: nat, ks: seq<nat>)
    ensures GroupSpans(i, Group(inner, rest), [k] + ks) == [(i, i + k)] + GroupSpans(i + k, rest, ks)
  {
    assert ([k] + ks)[1..] == ks;
  }

  lemma {:induction false} ThenSpansCons(i: nat, u: Unit, q: Quant, rest: Pat, k: nat, ks: seq<nat>)
    ensures GroupSpans(i, Then(u, q, rest), [k] + ks) == GroupSpans(i + Cover(u, k), rest, ks)
  {
    assert ([k] + ks)[1..] == ks;
  }

  /** What the recorded spans are to the group spans of the match found: `exact` asks for
      equality, otherwise striking out some of them must do. */
  ghost predicate Recorded(a: Spans, b: Spans, exact: bool) {
    if exact then a == b else Within(a, b)
  }

  lemma RecordedCons(c: (nat, nat), a: Spans, b: Spans, exact: bool)
    requires Recorded(a, b, exact)
    ensures Recorded([c] + a, [c] + b, exact)
  {
    if !exact {
      WithinCons(c, a, b);
    }
  }

  lemma RecordedBehind(x: Spans, a: Spans, b: Spans, exact: bool)
    requires Recorded(a, b, exact) && (exact ==> x == [])
    ensures Recorded(a, x + b, exact)
  {
    if exact {
      assert x + b == b;
    } else {
      WithinBehind(x, a, b);
    }
  }

  /** In a quiet pattern nothing behind a group can fail, so an attempt that fails has recorded
      no span. */
  predicate Quiet(t: Pat) {
    match t
    case Group(_, rest) => Nullable(rest)
    case Then(_, _, rest) => Quiet(rest)
    case _ => true
  }

  /** Behind every quantified item the pattern is quiet. */
  predicate QuietTails(t: Pat) {
    match t
    case Group(_, rest) => QuietTails(rest)
    case Then(_, q, rest) => if q == Once then QuietTails(rest) else Quiet(rest)
    case _ => true
  }

  lemma {:induction false} NullableQuiet(t: Pat)
    ensures Nullable(t) ==> Quiet(t)
    ensures Quiet(t) ==> QuietTails(t)
  {
    match t
    case Group(_, rest) => NullableQuiet(rest);
    case Then(_, _, rest) => NullableQuiet(rest);
    case _ =>
  }

  lemma {:induction false} QuietFails(s: bytes, i: nat, t: Pat)
    requires Quiet(t) && MatchLen(s, i, t).None?
    ensures Trace(s, i, t) == []
    decreases t, 0
  {
    hide MatchLen, Trace, TraceDown, TraceUp, Uses, Take, Nullable;
    match t
    case Group(inner, rest) =>
      TraceGroup(s, i, inner, rest);
      LenGroup(s, i, inner, rest);
      var n := MatchLen(s, i, inner);
      if n.Some? {
        NullableMatches(s, i + n.value, rest);
      }
    case Then(u, q, rest) => QuietThenFails(s, i, u, q, rest);
    case _ => EndsTrace(s, i, t);
  }

  lemma EndsTrace(s: bytes, i: nat, t: Pat)
    ensures t.Done? || t.AtEnd? || t.Unclosed? ==> Trace(s, i, t) == []
  {}

  lemma {:induction false} QuietThenFails(s: bytes, i: nat, u: Unit, q: Quant, rest: Pat)
    requires Quiet(rest) && MatchLen(s, i, Then(u, q, rest)).None?
    ensures Trace(s, i, Then(u, q, rest)) == []
    decreases rest, |s| + Uses(u, s, i) + 4
  {
    hide MatchLen, Trace, TraceDown, TraceUp, Uses, Run, Down, Up, Len;
    TraceThen(s, i, u, rest);
    LenStart(s, i, u, rest);
    match q {
      case Once =>
        LenOnce(s, i, u, rest);
        if Take(u, s, i).Some? {
          QuietFails(s, i + Cover(u, 1), rest);
        }
      case Opt => QuietDownFails(s, i, u, q, rest, if Take(u, s, i).Some? then 1 else 0, 0);
      case Star => QuietDownFails(s, i, u, q, rest, Uses(u, s, i), 0);
      case Plus => QuietDownFails(s, i, u, q, rest, Uses(u, s, i), 1);
      case Lazy => QuietUpFails(s, i, u, rest, 0);
    }
  }

  lemma {:induction false} QuietDownFails(s: bytes, i: nat, u: Unit, q: Quant, rest: Pat, k: nat, min: nat)
    requires Quiet(rest) && Len(Then(u, q, rest), Down(s, i, u, rest, k, min)).None?
    ensures TraceDown(s, i, u, rest, k, min) == []
    decreases rest, k + 1
  {
    hide MatchLen, Trace, Run, Down, Len;
    LenDown(s, i, u, q, rest, k, min);
    if k >= min {
      QuietFails(s, i + Cover(u, k), rest);
      if k > 0 {
        QuietDownFails(s, i, u, q, rest, k - 1, min);
      }
    }
  }

  lemma {:induction false} QuietUpFails(s: bytes, i: nat, u: Unit, rest: Pat, k: nat)
    requires Quiet(rest) && AllowedCount(u, Lazy, k) && Len(Then(u, Lazy, rest), Up(s, i, u, rest, k)).None?
    ensures TraceUp(s, i, u, rest, k) == []
    decreases rest, if i + k <= |s| then |s| - (i + k) + 1 else 1
  {
    hide MatchLen, Trace, Run, Up, Len;
    LenUp(s, i, u, rest, k);
    QuietFails(s, i + k, rest);
    if Take(u, s, i + k) == Some(1) {
      QuietUpFails(s, i, u, rest, k + 1);
    }
  }

  /** The search comes by the group spans of the match it finds, in order, and, where every
      failed attempt is quiet, by nothing else. */
  lemma {:induction false} GroupsInTrace(s: bytes, i: nat, t: Pat, exact: bool)
    requires Run(s, i, t).Some? && (exact ==> QuietTails(t))
    ensures Recorded(GroupSpans(i, t, Run(s, i, t).value), Trace(s, i, t), exact)
    decreases t, 0
  {
    hide Run, MatchLen, Trace, TraceDown, TraceUp, GroupSpans, Take, Uses, Span, Within;
    match t
    case Group(inner, rest) =>
      RunGroup(s, i, inner, rest);
      TraceGroup(s, i, inner, rest);
      LenOfRun(s, i, inner);
      var n := Span(inner, Run(s, i, inner).value);
      GroupsInTrace(s, i + n, rest, exact);
      var ks := Run(s, i + n, rest).value;
      GroupSpansCons(i, inner, rest, n, ks);
      RecordedCons((i, i + n), GroupSpans(i + n, rest, ks), Trace(s, i + n, rest), exact);
    case Then(u, q, rest) => GroupsInThen(s, i, u, q, rest, exact);
    case _ =>
      EndsTrace(s, i, t);
      EndsSpans(i, t, Run(s, i, t).value);
  }

  lemma EndsSpans(i: nat, t: Pat, ks: seq<nat>)
    ensures t.Done? || t.AtEnd? || t.Unclosed? ==> GroupSpans(i, t, ks) == [] && Within([], [])
  {}

  lemma {:induction false} GroupsInThen(s: bytes, i: nat, u: Unit, q: Quant, rest: Pat, exact: bool)
    requires Run(s, i, Then(u, q, rest)).Some? && (exact ==> QuietTails(Then(u, q, rest)))
    ensures var t := Then(u, q, rest); Recorded(GroupSpans(i, t, Run(s, i, t).value), Trace(s, i, t), exact)
    decreases rest, |s| + Uses(u, s, i) + 4
  {
    hide Run, Down, Up, Trace, TraceDown, TraceUp, GroupSpans, Uses, Recorded;
    TraceThen(s, i, u, rest);
    RunThen(s, i, u, rest);
    match q {
      case Once =>
        RunOnce(s, i, u, rest);
        GroupsInTrace(s, i + Cover(u, 1), rest, exact);
        ThenSpansCons(i, u, q, rest, 1, Run(s, i + Cover(u, 1), rest).value);
      case Opt => GroupsInDown(s, i, u, q, rest, if Take(u, s, i).Some? then 1 else 0, 0, exact);
      case Star => GroupsInDown(s, i, u, q, rest, Uses(u, s, i), 0, exact);
      case Plus => GroupsInDown(s, i, u, q, rest, Uses(u, s, i), 1, exact);
      case Lazy => GroupsInUp(s, i, u, rest, 0, exact);
    }
  }

  lemma {:induction false} GroupsInDown(s: bytes, i: nat, u: Unit, q: Quant, rest: Pat, k: nat, min: nat, exact: bool)
    requires Down(s, i, u, rest, k, min).Some? && (exact ==> Quiet(rest))
    ensures Recorded(GroupSpans(i, Then(u, q, rest), Down(s, i, u, rest, k, min).value),
                     TraceDown(s, i, u, rest, k, min), exact)
    decreases rest, k + 1
  {
    hide Run, MatchLen, Trace, GroupSpans, Recorded, Span;
    var j := i + Cover(u, k);
    var x := Trace(s, j, rest);
    LenOfRun(s, j, rest);
    var r := Run(s, j, rest);
    if r.Some? {
      NullableQuiet(rest);
      GroupsInTrace(s, j, rest, exact);
      ThenSpansCons(i, u, q, rest, k, r.value);
      assert x + [] == x;
    } else {
      if exact {
        QuietFails(s, j, rest);
      }
      GroupsInDown(s, i, u, q, rest, k - 1, min, exact);
      RecordedBehind(x, GroupSpans(i, Then(u, q, rest), Down(s, i, u, rest, k - 1, min).value),
                     TraceDown(s, i, u, rest, k - 1, min), exact);
    }
  }

  lemma {:induction false} GroupsInUp(s: bytes, i: nat, u: Unit, rest: Pat, k: nat, exact: bool)
    requires Up(s, i, u, rest, k).Some? && AllowedCount(u, Lazy, k) && (exact ==> Quiet(rest))
    ensures Recorded(GroupSpans(i, Then(u, Lazy, rest), Up(s, i, u, rest, k).value), TraceUp(s, i, u, rest, k), exact)
    decreases rest, if i + k <= |s| then |s| - (i + k) + 1 else 1
  {
    hide Run, MatchLen, Trace, GroupSpans, Recorded, Span;
    var x := Trace(s, i + k, rest);
    LenOfRun(s, i + k, rest);
    var r := Run(s, i + k, rest);
    if r.Some? {
      NullableQuiet(rest);
      GroupsInTrace(s, i + k, rest, exact);
      ThenSpansCons(i, u, Lazy, rest, k, r.value);
      assert x + [] == x;
    } else {
      if exact {
        QuietFails(s, i + k, rest);
      }
      GroupsInUp(s, i, u, rest, k + 1, exact);
      RecordedBehind(x, GroupSpans(i, Then(u, Lazy, rest), Up(s, i, u, rest, k + 1).value),
                     TraceUp(s, i, u, rest, k + 1), exact);
    }
  }

  lemma {:induction false} GroupSpansCount(s: bytes, i: nat, t: Pat, ks: seq<nat>)
    requires Derives(s, i, t, ks)
    ensures |GroupSpans(i, t, ks)| == Groups(t)
    decreases t
  {
    hide MatchLen, AllTaken, AllowedCount;
    match t
    case Group(_, rest) => GroupSpansCount(s, i + ks[0], rest, ks[1..]);
    case Then(u, _, rest) => GroupSpansCount(s, i + Cover(u, ks[0]), rest, ks[1..]);
    case _ =>
  }

  lemma BestIsRun(s: bytes, i: nat, t: Pat, ks: seq<nat>)
    requires Best(s, i, t, ks)
    ensures Run(s, i, t) == Some(ks)
  {
    hide Run;
    RunSound(s, i, t);
    RunComplete(s, i, t, ks);
    PrefersAntisymmetric(s, i, t, ks, Run(s, i, t).value);
  }

  /** When behind every quantified item nothing that follows a group can fail, a successful
      search records exactly the group spans of the preferred match (the first eight). */
  lemma QuietSpansExact(s: bytes, i: nat, t: Pat, caps: Spans, ks: seq<nat>)
    requires QuietTails(t) && |caps| <= GM_CAPS && Best(s, i, t, ks)
    ensures Gm(s, i, t, caps).caps == FirstEight(caps + GroupSpans(i, t, ks))
  {
    hide Best, Run, Trace, GroupSpans, QuietTails, FirstEight, Gm;
    BestIsRun(s, i, t, ks);
    GroupsInTrace(s, i, t, true);
    GmTrace(s, i, t, caps);
  }

  /** `a*(b)c`: not quiet behind its star, since `c` can fail behind the group. */
  function StarGroup(): Pat {
    Then(Literal(0x61), Star, GroupTail())
  }

  function GroupTail(): Pat {
    Group(Then(Literal(0x62), Once, Done), Then(Literal(0x63), Once, Done))
  }

  /** Quietness is not necessary: with `a*(b)c` every successful search records the group exactly. */
  lemma QuietNotNecessary(s: bytes, i: nat, ks: seq<nat>)
    requires Best(s, i, StarGroup(), ks)
    ensures !QuietTails(StarGroup()) && Gm(s, i, StarGroup(), []).caps == GroupSpans(i, StarGroup(), ks)
  {
    hide Best, Run, Down, Trace, TraceDown, GroupSpans, Gm, Uses, MatchLen;
    var u, rest := Literal(0x61), GroupTail();
    var n := Uses(u, s, i);
    BestIsRun(s, i, StarGroup(), ks);
    RunThen(s, i, u, rest);
    TraceThen(s, i, u, rest);
    OnlyTheLastUse(s, i, n);
    LenOfRun(s, i + n, rest);
    GroupsInTrace(s, i + n, rest, true);
    ThenSpansCons(i, u, Star, rest, n, Run(s, i + n, rest).value);
    TraceFirst(s, i, u, rest, n);
    GmTrace(s, i, StarGroup(), []);
    var x := Trace(s, i, StarGroup());
    assert [] + x == x && |x| <= GM_CAPS by { OneGroup(s, i + n); }
  }

  lemma OneGroup(s: bytes, i: nat)
    ensures |Trace(s, i, GroupTail())| <= 1
  {
    hide MatchLen;
  }

  lemma TraceFirst(s: bytes, i: nat, u: Unit, rest: Pat, k: nat)
    requires MatchLen(s, i + Cover(u, k), rest).Some?
    ensures TraceDown(s, i, u, rest, k, 0) == Trace(s, i + Cover(u, k), rest)
  {
    hide MatchLen, Trace;
  }

  /** With fewer than all uses of `a`, the next byte is no `b`. */
  lemma {:induction false} OnlyTheLastUse(s: bytes, i: nat, k: nat)
    requires k <= Uses(Literal(0x61), s, i)
    ensures k < Uses(Literal(0x61), s, i) ==> Down(s, i, Literal(0x61), GroupTail(), k, 0).None?
    ensures k == Uses(Literal(0x61), s, i) && Down(s, i, Literal(0x61), GroupTail(), k, 0).Some? ==>
              Run(s, i + k, GroupTail()).Some? &&
              Down(s, i, Literal(0x61), GroupTail(), k, 0).value == [k] + Run(s, i + k, GroupTail()).value
    decreases k
  {
    hide Run, Uses, MatchLen;
    var u := Literal(0x61);
    UsesIsMax(u, s, i, k);
    if k < Uses(u, s, i) {
      RunGroup(s, i + k, Then(Literal(0x62), Once, Done), Then(Literal(0x63), Once, Done));
      RunOnce(s, i + k, Literal(0x62), Done);
      assert s[i + k] == 0x61;
    }
    if k > 0 {
      OnlyTheLastUse(s, i, k - 1);
    }
  }

  /** For every pattern, the group spans of the preferred match are among the spans come by, in
      order; so below eight, what was recorded is the group spans exactly when their numbers
      agree. */
  lemma SpansExactIffCount(s: bytes, i: nat, t: Pat, ks: seq<nat>)
    requires Best(s, i, t, ks)
    ensures Within(GroupSpans(i, t, ks), Trace(s, i, t))
    ensures var caps := Gm(s, i, t, []).caps;
            |caps| < GM_CAPS ==>
              |caps| >= Groups(t) && Within(GroupSpans(i, t, ks), caps) &&
              (caps == GroupSpans(i, t, ks) <==> |caps| == Groups(t))
  {
    hide Best, Run, Trace, GroupSpans, Gm, Within, Derives;
    BestIsRun(s, i, t, ks);
    RunSound(s, i, t);
    GroupsInTrace(s, i, t, false);
    GmTrace(s, i, t, []);
    assert [] + Trace(s, i, t) == Trace(s, i, t);
    WithinLength(GroupSpans(i, t, ks), Trace(s, i, t));
    GroupSpansCount(s, i, t, ks);
  }

  /** With a quantified item before a group, spans of failed branches stay behind: one group,
      two recorded spans, the first of them not the group's. (`.-(a)b` on `aab`) */
  lemma StaleCapture()
    ensures Parse([0x2E, 0x2D, 0x28, 0x61, 0x29, 0x62], 0, true) ==
            Then(AnyByte, Lazy, Group(Then(Literal(0x61), Once, Done), Then(Literal(0x62), Once, Done)))
    ensures Gm([0x61, 0x61, 0x62], 0,
               Then(AnyByte, Lazy, Group(Then(Literal(0x61), Once, Done), Then(Literal(0x62), Once, Done))), []) ==
            Outcome(Some(3), [(0, 1), (1, 2)])
  {
    StaleCaptureParse();
    StaleCaptureRun();
  }

  lemma StaleCaptureParse()
    ensures Parse([0x2E, 0x2D, 0x28, 0x61, 0x29, 0x62], 0, true) ==
            Then(AnyByte, Lazy, Group(Then(Literal(0x61), Once, Done), Then(Literal(0x62), Once, Done)))
  {
    var p: bytes := [0x2E, 0x2D, 0x28, 0x61, 0x29, 0x62];
    assert p[3..4] == [0x61];
    ParseStep([0x61], 0, false);
    ParseStep([0x61], 1, false);
    assert CloseParen(p, 3) == Some(4);
    ParseStep(p, 5, true);
    ParseStep(p, 6, true);
    ParseStep(p, 2, true);
    ParseStep(p, 0, true);
  }

  lemma {:induction false} StaleCaptureRun()
    ensures Gm([0x61, 0x61, 0x62], 0,
               Then(AnyByte, Lazy, Group(Then(Literal(0x61), Once, Done), Then(Literal(0x62), Once, Done))), []) ==
            Outcome(Some(3), [(0, 1), (1, 2)])
  {
    hide Run, MatchLen, Gm, GmUp;
    var s: bytes := [0x61, 0x61, 0x62];
    var a := Then(Literal(0x61), Once, Done);
    var b := Then(Literal(0x62), Once, Done);
    LenOnce(s, 0, Literal(0x61), Done);
    LenOnce(s, 1, Literal(0x61), Done);
    LenEnds(s, 1);
    LenEnds(s, 2);
    assert MatchLen(s, 0, a) == Some(1) && MatchLen(s, 1, a) == Some(1);
    GmOnce(s, 1, Literal(0x62), Done, [(0, 1)]);
    GmGroup(s, 0, a, b, []);
    assert Record([], 0, 1) == [(0, 1)];
    assert Gm(s, 0, Group(a, b), []) == Outcome(None, [(0, 1)]);
    GmOnce(s, 2, Literal(0x62), Done, [(0, 1), (1, 2)]);
    GmGroup(s, 1, a, b, [(0, 1)]);
    assert Record([(0, 1)], 1, 2) == [(0, 1), (1, 2)];
    GmEnds(s, 3, [(0, 1), (1, 2)]);
    assert Gm(s, 1, Group(a, b), [(0, 1)]) == Outcome(Some(2), [(0, 1), (1, 2)]);
    GmUpStep(s, 0, AnyByte, Group(a, b), 0, []);
    GmUpStep(s, 0, AnyByte, Group(a, b), 1, [(0, 1)]);
    GmThen(s, 0, AnyByte, Group(a, b), []);
  }
}
