/** The matcher with capture groups. Spans are recorded as the search goes and are not taken
    back when a branch fails. */
module PatternCaptures {
  import opened Core
  import opened PatternItems
  import opened PatternMatch

  const GM_CAPS: nat := 8

  type Spans = seq<(nat, nat)>

  datatype Outcome = Outcome(len: Option<nat>, caps: Spans)

  function Record(caps: Spans, i: nat, end: nat): (r: Spans)
    ensures |caps| <= GM_CAPS ==> |r| <= GM_CAPS
  {
    if |caps| < GM_CAPS then caps + [(i, end)] else caps
  }

  ghost function After(n: nat, r: Outcome): Outcome {
    Outcome(Add(n, r.len), r.caps)
  }

  /** What the search from `i` answers and which spans it leaves behind. */
  ghost function Gm(s: bytes, i: nat, t: Pat, caps: Spans): Outcome
    decreases t, 0
  {
    match t
    case Done => Outcome(Some(0), caps)
    case AtEnd => Outcome(if i == |s| then Some(0) else None, caps)
    case Unclosed => Outcome(None, caps)
    case Group(inner, rest) =>
      (match MatchLen(s, i, inner)
       case None => Outcome(None, caps)
       case Some(n) => After(n, Gm(s, i + n, rest, Record(caps, i, i + n))))
    case Then(u, q, rest) =>
      match q
      case Once =>
        (match Take(u, s, i)
         case None => Outcome(None, caps)
         case Some(n) => After(n, Gm(s, i + n, rest, caps)))
      case Opt => GmDown(s, i, u, rest, if Take(u, s, i).Some? then 1 else 0, 0, caps)
      case Star => GmDown(s, i, u, rest, Uses(u, s, i), 0, caps)
      case Plus => GmDown(s, i, u, rest, Uses(u, s, i), 1, caps)
      case Lazy => GmUp(s, i, u, rest, 0, caps)
  }

  ghost function GmDown(s: bytes, i: nat, u: Unit, rest: Pat, k: nat, min: nat, caps: Spans): Outcome
    decreases rest, k + 1
  {
    if k < min then Outcome(None, caps)
    else
      var r := Gm(s, i + Cover(u, k), rest, caps);
      if r.len.Some? then After(Cover(u, k), r)
      else if k == 0 then r
      else GmDown(s, i, u, rest, k - 1, min, r.caps)
  }

  ghost function GmUp(s: bytes, i: nat, u: Unit, rest: Pat, k: nat, caps: Spans): Outcome
    decreases rest, if i + k <= |s| then |s| - (i + k) + 1 else 1
  {
    var r := Gm(s, i + k, rest, caps);
    if r.len.Some? then After(k, r)
    else if Take(u, s, i + k) == Some(1) then GmUp(s, i, u, rest, k + 1, r.caps)
    else r
  }

  // ----- the captures do not influence the match -----

  /** Recording captures never changes the answer: it is that of the plain search. */
  lemma {:induction false} GmLen(s: bytes, i: nat, t: Pat, caps: Spans)
    ensures Gm(s, i, t, caps).len == MatchLen(s, i, t)
    decreases t, 0
  {
    hide MatchLen, Uses, GmDown, GmUp;
    match t
    case Group(inner, rest) =>
      LenGroup(s, i, inner, rest);
      var n := MatchLen(s, i, inner);
      if n.Some? {
        GmLen(s, i + n.value, rest, Record(caps, i, i + n.value));
      }
    case Then(u, q, rest) => GmThenLen(s, i, u, q, rest, caps);
    case _ => LenEnds(s, i);
  }

  lemma {:induction false} GmThenLen(s: bytes, i: nat, u: Unit, q: Quant, rest: Pat, caps: Spans)
    ensures Gm(s, i, Then(u, q, rest), caps).len == MatchLen(s, i, Then(u, q, rest))
    decreases rest, |s| + Uses(u, s, i) + 4
  {
    hide Gm, Run, Down, Up, Uses, MatchLen, GmDown, GmUp;
    LenStart(s, i, u, rest);
    GmThen(s, i, u, rest, caps);
    match q {
      case Once =>
        LenOnce(s, i, u, rest);
        GmOnce(s, i, u, rest, caps);
        if Take(u, s, i).Some? {
          GmLen(s, i + Take(u, s, i).value, rest, caps);
        }
      case Opt => GmDownLen(s, i, u, q, rest, if Take(u, s, i).Some? then 1 else 0, 0, caps);
      case Star => GmDownLen(s, i, u, q, rest, Uses(u, s, i), 0, caps);
      case Plus => GmDownLen(s, i, u, q, rest, Uses(u, s, i), 1, caps);
      case Lazy => GmUpLen(s, i, u, rest, 0, caps);
    }
  }

  lemma {:induction false} GmThen(s: bytes, i: nat, u: Unit, rest: Pat, caps: Spans)
    ensures Gm(s, i, Then(u, Opt, rest), caps) == GmDown(s, i, u, rest, if Take(u, s, i).Some? then 1 else 0, 0, caps)
    ensures Gm(s, i, Then(u, Star, rest), caps) == GmDown(s, i, u, rest, Uses(u, s, i), 0, caps)
    ensures Gm(s, i, Then(u, Plus, rest), caps) == GmDown(s, i, u, rest, Uses(u, s, i), 1, caps)
    ensures Gm(s, i, Then(u, Lazy, rest), caps) == GmUp(s, i, u, rest, 0, caps)
  {
    hide GmDown, GmUp, Uses, MatchLen;
  }

  lemma {:induction false} GmDownLen(s: bytes, i: nat, u: Unit, q: Quant, rest: Pat, k: nat, min: nat, caps: Spans)
    ensures GmDown(s, i, u, rest, k, min, caps).len == Len(Then(u, q, rest), Down(s, i, u, rest, k, min))
    decreases rest, k + 1
  {
    hide Run, Down, MatchLen;
    LenDown(s, i, u, q, rest, k, min);
    if k >= min {
      GmLen(s, i + Cover(u, k), rest, caps);
      var r := Gm(s, i + Cover(u, k), rest, caps);
      if r.len.None? && k > 0 {
        GmDownLen(s, i, u, q, rest, k - 1, min, r.caps);
      }
    }
  }

  lemma {:induction false} GmUpLen(s: bytes, i: nat, u: Unit, rest: Pat, k: nat, caps: Spans)
    requires AllowedCount(u, Lazy, k)
    ensures GmUp(s, i, u, rest, k, caps).len == Len(Then(u, Lazy, rest), Up(s, i, u, rest, k))
    decreases rest, if i + k <= |s| then |s| - (i + k) + 1 else 1
  {
    hide Run, Up, MatchLen;
    LenUp(s, i, u, rest, k);
    GmLen(s, i + k, rest, caps);
    var r := Gm(s, i + k, rest, caps);
    if r.len.None? && Take(u, s, i + k) == Some(1) {
      GmUpLen(s, i, u, rest, k + 1, r.caps);
    }
  }

  // ----- every recorded span lies in the subject -----

  ghost predicate SpansIn(caps: Spans, n: nat) {
    |caps| <= GM_CAPS && forall k :: 0 <= k < |caps| ==> caps[k].0 <= caps[k].1 <= n
  }

  /** The search only appends spans, never beyond eight, and all of them lie in the subject. */
  lemma {:induction false} GmSpansIn(s: bytes, i: nat, t: Pat, caps: Spans)
    requires i <= |s| && SpansIn(caps, |s|)
    ensures var r := Gm(s, i, t, caps);
            caps <= r.caps && SpansIn(r.caps, |s|)
    decreases t, 0
  {
    hide MatchLen, UnitAccepts;
    match t
    case Group(inner, rest) =>
      var n := MatchLen(s, i, inner);
      if n.Some? {
        MatchInSubject(s, i, inner);
        GmSpansIn(s, i + n.value, rest, Record(caps, i, i + n.value));
      }
    case Then(u, q, rest) =>
      UsesIsMax(u, s, i, 0);
      match q {
        case Once =>
          if Take(u, s, i).Some? {
            GmSpansIn(s, i + Take(u, s, i).value, rest, caps);
          }
        case Opt => GmDownSpansIn(s, i, u, rest, if Take(u, s, i).Some? then 1 else 0, 0, caps);
        case Star => GmDownSpansIn(s, i, u, rest, Uses(u, s, i), 0, caps);
        case Plus => GmDownSpansIn(s, i, u, rest, Uses(u, s, i), 1, caps);
        case Lazy => GmUpSpansIn(s, i, u, rest, 0, caps);
      }
    case _ =>
  }

  lemma {:induction false} GmDownSpansIn(s: bytes, i: nat, u: Unit, rest: Pat, k: nat, min: nat, caps: Spans)
    requires i + Cover(u, k) <= |s| && SpansIn(caps, |s|)
    ensures var r := GmDown(s, i, u, rest, k, min, caps);
            caps <= r.caps && SpansIn(r.caps, |s|)
    decreases rest, k + 1
  {
    hide Gm, MatchLen, UnitAccepts, HasGroup;
    if k >= min {
      GmSpansIn(s, i + Cover(u, k), rest, caps);
      var r := Gm(s, i + Cover(u, k), rest, caps);
      if r.len.None? && k > 0 {
        GmDownSpansIn(s, i, u, rest, k - 1, min, r.caps);
      }
    }
  }

  lemma {:induction false} GmUpSpansIn(s: bytes, i: nat, u: Unit, rest: Pat, k: nat, caps: Spans)
    requires i + k <= |s| && SpansIn(caps, |s|)
    ensures var r := GmUp(s, i, u, rest, k, caps);
            caps <= r.caps && SpansIn(r.caps, |s|)
    decreases rest, if i + k <= |s| then |s| - (i + k) + 1 else 1
  {
    hide Gm, MatchLen, UnitAccepts, HasGroup;
    GmSpansIn(s, i + k, rest, caps);
    var r := Gm(s, i + k, rest, caps);
    if r.len.None? && Take(u, s, i + k) == Some(1) {
      GmUpSpansIn(s, i, u, rest, k + 1, r.caps);
    }
  }

  // ----- the search, step by step -----

  lemma {:induction false} GmEnds(s: bytes, i: nat, caps: Spans)
    ensures Gm(s, i, Done, caps) == Outcome(Some(0), caps)
    ensures Gm(s, i, AtEnd, caps) == Outcome(if i == |s| then Some(0) else None, caps)
    ensures Gm(s, i, Unclosed, caps) == Outcome(None, caps)
  {
    hide MatchLen, GmDown, GmUp, Uses;
  }

  lemma {:induction false} GmDownStep(s: bytes, i: nat, u: Unit, rest: Pat, k: nat, min: nat, caps: Spans)
    ensures GmDown(s, i, u, rest, k, min, caps) ==
            if k < min then Outcome(None, caps)
            else
              var r := Gm(s, i + Cover(u, k), rest, caps);
              if r.len.Some? then After(Cover(u, k), r)
              else if k == 0 then r
              else GmDown(s, i, u, rest, k - 1, min, r.caps)
  {
    hide Gm;
  }

  lemma {:induction false} GmGroup(s: bytes, i: nat, inner: Pat, rest: Pat, caps: Spans)
    ensures Gm(s, i, Group(inner, rest), caps) ==
            match MatchLen(s, i, inner)
            case None => Outcome(None, caps)
            case Some(n) => After(n, Gm(s, i + n, rest, Record(caps, i, i + n)))
  {
    hide MatchLen, GmDown, GmUp, Uses, Record;
  }

  lemma {:induction false} GmOnce(s: bytes, i: nat, u: Unit, rest: Pat, caps: Spans)
    ensures Gm(s, i, Then(u, Once, rest), caps) ==
            match Take(u, s, i)
            case None => Outcome(None, caps)
            case Some(n) => After(n, Gm(s, i + n, rest, caps))
  {
    hide MatchLen, GmDown, GmUp, Uses;
  }

  lemma {:induction false} GmUpStep(s: bytes, i: nat, u: Unit, rest: Pat, k: nat, caps: Spans)
    ensures var r := Gm(s, i + k, rest, caps);
            GmUp(s, i, u, rest, k, caps) ==
            if r.len.Some? then After(k, r)
            else if Take(u, s, i + k) == Some(1) then GmUp(s, i, u, rest, k + 1, r.caps)
            else r
  {
    hide Gm;
  }
}
