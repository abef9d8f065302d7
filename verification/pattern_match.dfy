/** The backtracking matcher: what a match is, which match is preferred, and the recursive
    search that finds it, with and without capture groups. */
module PatternMatch {
  import opened Core
  import opened PatternItems

  // ----- matches, declaratively -----

  /** Subject bytes covered by `k` uses of a unit. */
  function Cover(u: Unit, k: nat): nat {
    if u.Anchor? then 0 else k
  }

  ghost predicate AllTaken(u: Unit, s: bytes, i: nat, k: nat) {
    u.Anchor? || k == 0 || (i + k <= |s| && forall j :: i <= j < i + k ==> UnitAccepts(u, s[j]))
  }

  /** Repetition counts a quantifier admits. A repeated anchor is never counted. */
  predicate AllowedCount(u: Unit, q: Quant, k: nat) {
    match q
    case Once => k == 1
    case Opt => k <= 1
    case Star => u.Anchor? ==> k == 0
    case Plus => k >= 1 && !u.Anchor?
    case Lazy => u.Anchor? ==> k == 0
  }

  /** A derivation gives each item a count. A capture group is atomic: its only count is
      the length of the match its body has on its own. */
  ghost predicate Derives(s: bytes, i: nat, t: Pat, ks: seq<nat>)
    decreases t
  {
    match t
    case Done => ks == []
    case AtEnd => ks == [] && i == |s|
    case Unclosed => false
    case Group(inner, rest) =>
      ks != [] && MatchLen(s, i, inner) == Some(ks[0]) && Derives(s, i + ks[0], rest, ks[1..])
    case Then(u, q, rest) =>
      ks != [] && AllowedCount(u, q, ks[0]) && AllTaken(u, s, i, ks[0]) &&
      Derives(s, i + Cover(u, ks[0]), rest, ks[1..])
  }

  /** Subject bytes a derivation covers. */
  function Span(t: Pat, ks: seq<nat>): nat
    decreases t
  {
    match t
    case Group(_, rest) => if ks == [] then 0 else ks[0] + Span(rest, ks[1..])
    case Then(u, _, rest) => if ks == [] then 0 else Cover(u, ks[0]) + Span(rest, ks[1..])
    case _ => 0
  }

  predicate BetterCount(q: Quant, a: nat, b: nat) {
    if q == Lazy then a < b else a > b
  }

  /** The order among derivations: the first item whose counts differ decides, more being
      better except for the lazy quantifier. */
  predicate Prefers(t: Pat, a: seq<nat>, b: seq<nat>)
    decreases t
  {
    match t
    case Group(_, rest) => a != [] && b != [] && a[0] == b[0] && Prefers(rest, a[1..], b[1..])
    case Then(_, q, rest) =>
      a != [] && b != [] && (BetterCount(q, a[0], b[0]) || (a[0] == b[0] && Prefers(rest, a[1..], b[1..])))
    case _ => true
  }

  ghost predicate Best(s: bytes, i: nat, t: Pat, ks: seq<nat>) {
    Derives(s, i, t, ks) && forall ks' :: Derives(s, i, t, ks') ==> Prefers(t, ks, ks')
  }

  lemma {:induction false} BestUnique(s: bytes, i: nat, t: Pat, a: seq<nat>, b: seq<nat>)
    requires Best(s, i, t, a) && Best(s, i, t, b)
    ensures a == b
  {
    PrefersAntisymmetric(s, i, t, a, b);
  }

  lemma {:induction false} PrefersAntisymmetric(s: bytes, i: nat, t: Pat, a: seq<nat>, b: seq<nat>)
    requires Derives(s, i, t, a) && Derives(s, i, t, b)
    requires Prefers(t, a, b) && Prefers(t, b, a)
    ensures a == b
    decreases t
  {
    hide MatchLen, AllTaken, AllowedCount, Cover;
    match t
    case Group(_, rest) =>
      PrefersAntisymmetric(s, i + a[0], rest, a[1..], b[1..]);
      SameHead(a, b);
    case Then(u, _, rest) =>
      PrefersAntisymmetric(s, i + Cover(u, a[0]), rest, a[1..], b[1..]);
      SameHead(a, b);
    case _ =>
  }

  lemma {:induction false} SameHead(a: seq<nat>, b: seq<nat>)
    requires a != [] && b != [] && a[0] == b[0] && a[1..] == b[1..]
    ensures a == b
  {
    assert a == [a[0]] + a[1..] && b == [b[0]] + b[1..];
  }

  // ----- the search, as a function -----

  ghost function Uses(u: Unit, s: bytes, i: nat): (n: nat)
    decreases |s| - i
  {
    if Take(u, s, i) == Some(1) then 1 + Uses(u, s, i + 1) else 0
  }

  ghost function Cons(k: nat, r: Option<seq<nat>>): Option<seq<nat>> {
    if r.Some? then Some([k] + r.value) else None
  }

  ghost function Run(s: bytes, i: nat, t: Pat): Option<seq<nat>>
    decreases t, 0
  {
    match t
    case Done => Some([])
    case AtEnd => if i == |s| then Some([]) else None
    case Unclosed => None
    case Group(inner, rest) =>
      (match Run(s, i, inner)
       case None => None
       case Some(ks) => Cons(Span(inner, ks), Run(s, i + Span(inner, ks), rest)))
    case Then(u, q, rest) =>
      match q
      case Once => if Take(u, s, i).Some? then Cons(1, Run(s, i + Cover(u, 1), rest)) else None
      case Opt => Down(s, i, u, rest, if Take(u, s, i).Some? then 1 else 0, 0)
      case Star => Down(s, i, u, rest, Uses(u, s, i), 0)
      case Plus => Down(s, i, u, rest, Uses(u, s, i), 1)
      case Lazy => Up(s, i, u, rest, 0)
  }

  /** Greedy: `k` uses, then fewer, but at least `min`. */
  ghost function Down(s: bytes, i: nat, u: Unit, rest: Pat, k: nat, min: nat): Option<seq<nat>>
    decreases rest, k + 1
  {
    if k < min then None
    else
      var r := Run(s, i + Cover(u, k), rest);
      if r.Some? then Cons(k, r)
      else if k == 0 then None
      else Down(s, i, u, rest, k - 1, min)
  }

  /** Lazy: `k` uses, then more. */
  ghost function Up(s: bytes, i: nat, u: Unit, rest: Pat, k: nat): Option<seq<nat>>
    decreases rest, if i + k <= |s| then |s| - (i + k) + 1 else 1
  {
    var r := Run(s, i + k, rest);
    if r.Some? then Cons(k, r)
    else if Take(u, s, i + k) == Some(1) then Up(s, i, u, rest, k + 1)
    else None
  }

  ghost function Len(t: Pat, r: Option<seq<nat>>): Option<nat> {
    match r
    case None => None
    case Some(ks) => Some(Span(t, ks))
  }

  ghost function MatchLen(s: bytes, i: nat, t: Pat): Option<nat>
    decreases t, 1
  {
    Len(t, Run(s, i, t))
  }

  // ----- the search is sound, complete and ordered -----

  lemma {:induction false} UsesIsMax(u: Unit, s: bytes, i: nat, k: nat)
    ensures AllTaken(u, s, i, Uses(u, s, i))
    ensures AllowedCount(u, Star, Uses(u, s, i))
    ensures AllTaken(u, s, i, k) && !u.Anchor? ==> k <= Uses(u, s, i)
    decreases |s| - i
  {
    if Take(u, s, i) == Some(1) {
      UsesIsMax(u, s, i + 1, if k > 0 then k - 1 else 0);
      assert i + Uses(u, s, i) <= |s|;
      if !u.Anchor? && k > 0 && AllTaken(u, s, i, k) {
        assert AllTaken(u, s, i + 1, k - 1);
      }
    } else if !u.Anchor? && i < |s| {
      assert !UnitAccepts(u, s[i]);
    }
  }

  lemma FewerTaken(u: Unit, s: bytes, i: nat, k: nat, n: nat)
    requires AllTaken(u, s, i, n) && k <= n
    ensures AllTaken(u, s, i, k)
  {}

  lemma {:induction false} RunSound(s: bytes, i: nat, t: Pat)
    ensures Run(s, i, t).Some? ==> Derives(s, i, t, Run(s, i, t).value)
    decreases t, 0
  {
    match t
    case Group(inner, rest) =>
      if Run(s, i, inner).Some? {
        RunSound(s, i + Span(inner, Run(s, i, inner).value), rest);
      }
    case Then(u, q, rest) => ThenSound(s, i, u, q, rest);
    case _ =>
  }

  lemma {:induction false} ThenSound(s: bytes, i: nat, u: Unit, q: Quant, rest: Pat)
    ensures var r := Run(s, i, Then(u, q, rest));
            r.Some? ==> Derives(s, i, Then(u, q, rest), r.value)
    decreases rest, Uses(u, s, i) + |s| + 4
  {
    hide Run, Down, Up, MatchLen, AllTaken, Derives;
    if q == Once {
      RunOnce(s, i, u, rest);
      RunSound(s, i + Cover(u, 1), rest);
      var r := Run(s, i + Cover(u, 1), rest);
      if Take(u, s, i).Some? && r.Some? {
        OneTaken(u, s, i);
        DerivesCons(s, i, u, Once, rest, 1, r.value);
      }
    } else if q == Lazy {
      RunThen(s, i, u, rest);
      NoneTaken(u, s, i);
      UpSound(s, i, u, rest, 0);
      var r := Up(s, i, u, rest, 0);
      if r.Some? {
        DerivesParts(s, i, u, Lazy, rest, r.value);
      }
    } else {
      GreedySound(s, i, u, q, rest, if q == Opt then if Take(u, s, i).Some? then 1 else 0 else Uses(u, s, i));
    }
  }

  lemma {:induction false} DerivesCons(s: bytes, i: nat, u: Unit, q: Quant, rest: Pat, k: nat, ks: seq<nat>)
    requires AllowedCount(u, q, k) && AllTaken(u, s, i, k) && Derives(s, i + Cover(u, k), rest, ks)
    ensures Derives(s, i, Then(u, q, rest), [k] + ks)
  {
    hide AllTaken, AllowedCount, MatchLen;
    assert ([k] + ks)[1..] == ks;
  }

  lemma {:induction false} DerivesParts(s: bytes, i: nat, u: Unit, q: Quant, rest: Pat, ks: seq<nat>)
    requires ks != [] && AllowedCount(u, q, ks[0]) && AllTaken(u, s, i, ks[0])
    requires Derives(s, i + Cover(u, ks[0]), rest, ks[1..])
    ensures Derives(s, i, Then(u, q, rest), ks)
  {
    hide AllTaken, AllowedCount, MatchLen;
  }

  lemma OneTaken(u: Unit, s: bytes, i: nat)
    requires Take(u, s, i).Some?
    ensures AllTaken(u, s, i, 1)
  {}

  lemma NoneTaken(u: Unit, s: bytes, i: nat)
    ensures AllTaken(u, s, i, 0) && AllowedCount(u, Lazy, 0)
  {}

  lemma {:induction false} GreedySound(s: bytes, i: nat, u: Unit, q: Quant, rest: Pat, n: nat)
    requires q == Star || q == Plus ==> n == Uses(u, s, i)
    requires q == Opt ==> n == if Take(u, s, i).Some? then 1 else 0
    requires q != Once && q != Lazy
    ensures var r := Run(s, i, Then(u, q, rest));
            r.Some? ==> Derives(s, i, Then(u, q, rest), r.value)
    decreases rest, n + 2
  {
    RunThen(s, i, u, rest);
    hide Run, Down, Derives, MatchLen;
    UsesIsMax(u, s, i, 0);
    var min := if q == Plus then 1 else 0;
    DownSound(s, i, u, rest, n, min);
    var r := Down(s, i, u, rest, n, min);
    if r.Some? {
      FewerTaken(u, s, i, r.value[0], n);
      DerivesParts(s, i, u, q, rest, r.value);
    }
  }

  lemma {:induction false} RunGroup(s: bytes, i: nat, inner: Pat, rest: Pat)
    ensures Run(s, i, Group(inner, rest)) ==
            match Run(s, i, inner)
            case None => None
            case Some(ks) => Cons(Span(inner, ks), Run(s, i + Span(inner, ks), rest))
  {
    hide MatchLen, Down, Up, Uses, Cons, Span;
  }

  lemma {:induction false} RunOnce(s: bytes, i: nat, u: Unit, rest: Pat)
    ensures Run(s, i, Then(u, Once, rest)) ==
            if Take(u, s, i).Some? then Cons(1, Run(s, i + Cover(u, 1), rest)) else None
    ensures Take(u, s, i).Some? ==> Take(u, s, i).value == Cover(u, 1)
  {
    hide MatchLen, Down, Up, Uses, Cons;
  }

  lemma {:induction false} RunThen(s: bytes, i: nat, u: Unit, rest: Pat)
    ensures Run(s, i, Then(u, Opt, rest)) == Down(s, i, u, rest, if Take(u, s, i).Some? then 1 else 0, 0)
    ensures Run(s, i, Then(u, Star, rest)) == Down(s, i, u, rest, Uses(u, s, i), 0)
    ensures Run(s, i, Then(u, Plus, rest)) == Down(s, i, u, rest, Uses(u, s, i), 1)
    ensures Run(s, i, Then(u, Lazy, rest)) == Up(s, i, u, rest, 0)
  {
    hide MatchLen, Down, Up, Uses;
  }

  lemma {:induction false} DownSound(s: bytes, i: nat, u: Unit, rest: Pat, k: nat, min: nat)
    ensures var r := Down(s, i, u, rest, k, min);
            r.Some? ==> r.value != [] && min <= r.value[0] <= k &&
                        Derives(s, i + Cover(u, r.value[0]), rest, r.value[1..])
    decreases rest, k + 1
  {
    hide Run, Derives, MatchLen;
    if k >= min {
      RunSound(s, i + Cover(u, k), rest);
      var r := Run(s, i + Cover(u, k), rest);
      if r.Some? {
        assert ([k] + r.value)[1..] == r.value;
      } else if k > 0 {
        DownSound(s, i, u, rest, k - 1, min);
      }
    }
  }

  lemma {:induction false} UpSound(s: bytes, i: nat, u: Unit, rest: Pat, k: nat)
    requires AllTaken(u, s, i, k) && AllowedCount(u, Lazy, k)
    ensures var r := Up(s, i, u, rest, k);
            r.Some? ==> r.value != [] && AllowedCount(u, Lazy, r.value[0]) && AllTaken(u, s, i, r.value[0]) &&
                        Derives(s, i + Cover(u, r.value[0]), rest, r.value[1..])
    decreases rest, if i + k <= |s| then |s| - (i + k) + 1 else 1
  {
    hide Run, Derives, MatchLen;
    RunSound(s, i + k, rest);
    var r := Run(s, i + k, rest);
    if r.Some? {
      assert ([k] + r.value)[1..] == r.value;
    } else if Take(u, s, i + k) == Some(1) {
      UpSound(s, i, u, rest, k + 1);
    }
  }

  lemma {:induction false} RunComplete(s: bytes, i: nat, t: Pat, ks: seq<nat>)
    requires Derives(s, i, t, ks)
    ensures Run(s, i, t).Some? && Prefers(t, Run(s, i, t).value, ks)
    decreases t, 0
  {
    hide Run, Down, Up, MatchLen, AllTaken, AllowedCount, Uses, Prefers, Take;
    match t
    case Group(inner, rest) =>
      RunComplete(s, i + ks[0], rest, ks[1..]);
      RunGroup(s, i, inner, rest);
      LenOfRun(s, i, inner);
      PrefersGroup(inner, rest, ks[0], Run(s, i + ks[0], rest).value, ks);
    case Then(u, q, rest) => ThenComplete(s, i, u, q, rest, ks);
    case _ => RunEnds(s, i, t, ks);
  }

  lemma {:induction false} ThenComplete(s: bytes, i: nat, u: Unit, q: Quant, rest: Pat, ks: seq<nat>)
    requires Derives(s, i, Then(u, q, rest), ks)
    ensures var r := Run(s, i, Then(u, q, rest));
            r.Some? && Prefers(Then(u, q, rest), r.value, ks)
    decreases rest, Uses(u, s, i) + |s| + 4
  {
    hide Run, Down, Up, MatchLen, Uses;
    RunThen(s, i, u, rest);
    if q == Once {
      RunOnce(s, i, u, rest);
      RunComplete(s, i + Cover(u, 1), rest, ks[1..]);
      var r := Run(s, i + Cover(u, 1), rest);
      assert ([1] + r.value)[1..] == r.value;
    } else if q == Lazy {
      UpComplete(s, i, u, rest, 0, ks);
    } else if q == Opt {
      DownComplete(s, i, u, rest, if Take(u, s, i).Some? then 1 else 0, 0, ks);
    } else {
      UsesIsMax(u, s, i, ks[0]);
      DownComplete(s, i, u, rest, Uses(u, s, i), if q == Star then 0 else 1, ks);
    }
  }

  lemma {:induction false} LenOfRun(s: bytes, i: nat, t: Pat)
    ensures MatchLen(s, i, t) == Len(t, Run(s, i, t))
  {
    hide Run;
  }

  lemma {:induction false} PrefersGroup(inner: Pat, rest: Pat, k: nat, a: seq<nat>, ks: seq<nat>)
    requires ks != [] && ks[0] == k && Prefers(rest, a, ks[1..])
    ensures Prefers(Group(inner, rest), [k] + a, ks)
  {
    assert ([k] + a)[1..] == a;
  }

  lemma {:induction false} RunEnds(s: bytes, i: nat, t: Pat, ks: seq<nat>)
    requires (t.Done? || t.AtEnd? || t.Unclosed?) && Derives(s, i, t, ks)
    ensures Run(s, i, t).Some? && Prefers(t, Run(s, i, t).value, ks)
  {
    hide MatchLen, Down, Up, Uses, AllTaken;
  }

  lemma {:induction false} DownComplete(s: bytes, i: nat, u: Unit, rest: Pat, k: nat, min: nat, ks: seq<nat>)
    requires ks != [] && min <= ks[0] <= k && Derives(s, i + Cover(u, ks[0]), rest, ks[1..])
    ensures var r := Down(s, i, u, rest, k, min);
            r.Some? && r.value != [] &&
            (r.value[0] > ks[0] || (r.value[0] == ks[0] && Prefers(rest, r.value[1..], ks[1..])))
    decreases rest, k + 1
  {
    hide Run, Derives, Prefers, MatchLen;
    var r := Run(s, i + Cover(u, k), rest);
    if r.Some? {
      assert ([k] + r.value)[1..] == r.value;
    }
    if k == ks[0] {
      RunComplete(s, i + Cover(u, k), rest, ks[1..]);
    } else if Run(s, i + Cover(u, k), rest).None? {
      DownComplete(s, i, u, rest, k - 1, min, ks);
    }
  }

  lemma {:induction false} UpComplete(s: bytes, i: nat, u: Unit, rest: Pat, k: nat, ks: seq<nat>)
    requires ks != [] && k <= ks[0] && AllowedCount(u, Lazy, ks[0]) && AllTaken(u, s, i, ks[0])
    requires Derives(s, i + Cover(u, ks[0]), rest, ks[1..])
    ensures var r := Up(s, i, u, rest, k);
            r.Some? && r.value != [] &&
            (r.value[0] < ks[0] || (r.value[0] == ks[0] && Prefers(rest, r.value[1..], ks[1..])))
    decreases rest, if i + k <= |s| then |s| - (i + k) + 1 else 1
  {
    hide Run, Derives, Prefers, MatchLen;
    var r := Run(s, i + k, rest);
    if r.Some? {
      assert ([k] + r.value)[1..] == r.value;
    }
    if k == ks[0] {
      RunComplete(s, i + k, rest, ks[1..]);
    } else if Run(s, i + k, rest).None? {
      assert UnitAccepts(u, s[i + k]);
      UpComplete(s, i, u, rest, k + 1, ks);
    }
  }

  /** The search answers with a length iff a match exists from `i`, and the length is that
      of the one match preferred to all others. */
  lemma SearchFindsBestMatch(s: bytes, i: nat, t: Pat)
    ensures MatchLen(s, i, t).Some? <==> exists ks :: Derives(s, i, t, ks)
    ensures MatchLen(s, i, t).Some? ==> exists ks :: Best(s, i, t, ks) && Span(t, ks) == MatchLen(s, i, t).value
  {
    hide Run, Prefers;
    var r := Run(s, i, t);
    assert MatchLen(s, i, t) == Len(t, r);
    if r.Some? {
      RunSound(s, i, t);
      forall ks | Derives(s, i, t, ks)
        ensures Prefers(t, r.value, ks)
      {
        RunComplete(s, i, t, ks);
      }
      assert Best(s, i, t, r.value);
      assert Derives(s, i, t, r.value);
      assert exists ks :: Derives(s, i, t, ks);
      assert MatchLen(s, i, t).Some?;
    } else if exists ks :: Derives(s, i, t, ks) {
      var ks :| Derives(s, i, t, ks);
      RunComplete(s, i, t, ks);
    }
  }

  lemma {:induction false} DerivationInSubject(s: bytes, i: nat, t: Pat, ks: seq<nat>)
    requires i <= |s| && Derives(s, i, t, ks)
    ensures i + Span(t, ks) <= |s|
    decreases t
  {
    match t
    case Group(inner, rest) =>
      RunSound(s, i, inner);
      DerivationInSubject(s, i, inner, Run(s, i, inner).value);
      DerivationInSubject(s, i + ks[0], rest, ks[1..]);
    case Then(u, _, rest) =>
      DerivationInSubject(s, i + Cover(u, ks[0]), rest, ks[1..]);
    case _ =>
  }

  lemma MatchInSubject(s: bytes, i: nat, t: Pat)
    requires i <= |s| && MatchLen(s, i, t).Some?
    ensures i + MatchLen(s, i, t).value <= |s|
  {
    RunSound(s, i, t);
    DerivationInSubject(s, i, t, Run(s, i, t).value);
  }

  // ----- match lengths, case by case -----

  ghost function Add(n: nat, r: Option<nat>): Option<nat> {
    if r.Some? then Some(n + r.value) else None
  }

  lemma {:induction false} SpanCons(u: Unit, q: Quant, rest: Pat, k: nat, ks: seq<nat>)
    ensures Span(Then(u, q, rest), [k] + ks) == Cover(u, k) + Span(rest, ks)
  {
    assert ([k] + ks)[1..] == ks;
  }

  lemma {:induction false} LenEnds(s: bytes, i: nat)
    ensures MatchLen(s, i, Done) == Some(0)
    ensures MatchLen(s, i, AtEnd) == if i == |s| then Some(0) else None
    ensures MatchLen(s, i, Unclosed) == None
  {
    hide Down, Up, Uses;
  }

  lemma {:induction false} LenOnce(s: bytes, i: nat, u: Unit, rest: Pat)
    ensures MatchLen(s, i, Then(u, Once, rest)) ==
            match Take(u, s, i)
            case None => None
            case Some(n) => Add(n, MatchLen(s, i + n, rest))
  {
    hide Run, Uses, Span, MatchLen;
    RunOnce(s, i, u, rest);
    LenOfRun(s, i, Then(u, Once, rest));
    LenOfRun(s, i + Cover(u, 1), rest);
    var r := Run(s, i + Cover(u, 1), rest);
    if r.Some? {
      SpanCons(u, Once, rest, 1, r.value);
    }
  }

  lemma {:induction false} LenGroup(s: bytes, i: nat, inner: Pat, rest: Pat)
    ensures MatchLen(s, i, Group(inner, rest)) ==
            match MatchLen(s, i, inner)
            case None => None
            case Some(n) => Add(n, MatchLen(s, i + n, rest))
  {
    RunGroup(s, i, inner, rest);
    hide Run;
    var r := Run(s, i, inner);
    if r.Some? {
      var n := Span(inner, r.value);
      var r' := Run(s, i + n, rest);
      if r'.Some? {
        assert ([n] + r'.value)[1..] == r'.value;
      }
    }
  }

  lemma {:induction false} LenStart(s: bytes, i: nat, u: Unit, rest: Pat)
    ensures MatchLen(s, i, Then(u, Opt, rest)) ==
            Len(Then(u, Opt, rest), Down(s, i, u, rest, if Take(u, s, i).Some? then 1 else 0, 0))
    ensures MatchLen(s, i, Then(u, Star, rest)) == Len(Then(u, Star, rest), Down(s, i, u, rest, Uses(u, s, i), 0))
    ensures MatchLen(s, i, Then(u, Plus, rest)) == Len(Then(u, Plus, rest), Down(s, i, u, rest, Uses(u, s, i), 1))
    ensures MatchLen(s, i, Then(u, Lazy, rest)) == Len(Then(u, Lazy, rest), Up(s, i, u, rest, 0))
  {
    hide Run, Down, Up;
    RunThen(s, i, u, rest);
  }

  lemma {:induction false} LenDown(s: bytes, i: nat, u: Unit, q: Quant, rest: Pat, k: nat, min: nat)
    ensures Len(Then(u, q, rest), Down(s, i, u, rest, k, min)) ==
            if k < min then None
            else if MatchLen(s, i + Cover(u, k), rest).Some? then Add(Cover(u, k), MatchLen(s, i + Cover(u, k), rest))
            else if k == 0 then None
            else Len(Then(u, q, rest), Down(s, i, u, rest, k - 1, min))
  {
    hide Run, MatchLen, Uses, Span;
    LenOfRun(s, i + Cover(u, k), rest);
    var r := Run(s, i + Cover(u, k), rest);
    if r.Some? {
      SpanCons(u, q, rest, k, r.value);
    }
  }

  lemma {:induction false} LenUp(s: bytes, i: nat, u: Unit, rest: Pat, k: nat)
    requires AllowedCount(u, Lazy, k)
    ensures Len(Then(u, Lazy, rest), Up(s, i, u, rest, k)) ==
            if MatchLen(s, i + k, rest).Some? then Add(k, MatchLen(s, i + k, rest))
            else if Take(u, s, i + k) == Some(1) then Len(Then(u, Lazy, rest), Up(s, i, u, rest, k + 1))
            else None
  {
    hide Run, MatchLen, Uses, Span;
    LenOfRun(s, i + k, rest);
    var r := Run(s, i + k, rest);
    if r.Some? {
      SpanCons(u, Lazy, rest, k, r.value);
    }
  }

  // ----- patterns that cannot fail -----

  /** The pattern matches the empty string wherever it is tried. */
  predicate Nullable(t: Pat) {
    match t
    case Done => true
    case AtEnd => false
    case Unclosed => false
    case Group(inner, rest) => Nullable(inner) && Nullable(rest)
    case Then(u, q, rest) => (if q == Once then u.Anchor? else q != Plus) && Nullable(rest)
  }

  lemma {:induction false} NullableMatches(s: bytes, i: nat, t: Pat)
    requires Nullable(t)
    ensures MatchLen(s, i, t).Some?
    decreases t, 0
  {
    hide Run, Down, Up, Uses, Len, MatchLen;
    match t
    case Group(inner, rest) =>
      LenGroup(s, i, inner, rest);
      NullableMatches(s, i, inner);
      NullableMatches(s, i + MatchLen(s, i, inner).value, rest);
    case Then(u, q, rest) =>
      LenStart(s, i, u, rest);
      if q == Once {
        LenOnce(s, i, u, rest);
        NullableMatches(s, i, rest);
      } else if q == Lazy {
        LenUp(s, i, u, rest, 0);
        NullableMatches(s, i, rest);
      } else {
        var k := if q == Star then Uses(u, s, i) else if Take(u, s, i).Some? then 1 else 0;
        LenDown(s, i, u, q, rest, k, 0);
        NullableMatches(s, i + Cover(u, k), rest);
      }
    case _ => LenEnds(s, i);
  }

  /** Past the end of the subject exactly these patterns match. */
  lemma {:induction false} PastEnd(s: bytes, i: nat, t: Pat)
    requires i > |s|
    ensures MatchLen(s, i, t) == if Nullable(t) then Some(0) else None
    decreases t
  {
    hide Run, Down, Up, Len, MatchLen, UnitAccepts;
    match t
    case Group(inner, rest) =>
      LenGroup(s, i, inner, rest);
      PastEnd(s, i, inner);
      PastEnd(s, i, rest);
    case Then(u, q, rest) =>
      LenStart(s, i, u, rest);
      LenOnce(s, i, u, rest);
      PastEnd(s, i, rest);
      assert Uses(u, s, i) == 0;
      LenDown(s, i, u, q, rest, 0, if q == Plus then 1 else 0);
      if q == Opt && u.Anchor? {
        LenDown(s, i, u, q, rest, 1, 0);
      }
      if q == Lazy {
        LenUp(s, i, u, rest, 0);
      }
    case _ => LenEnds(s, i);
  }

  /** A pattern matches everywhere exactly when it is one of these. */
  lemma NullableIff(s: bytes, t: Pat)
    ensures Nullable(t) <==> forall i :: MatchLen(s, i, t).Some?
  {
    hide MatchLen, Nullable;
    if Nullable(t) {
      forall i ensures MatchLen(s, i, t).Some? {
        NullableMatches(s, i, t);
      }
    }
    PastEnd(s, |s| + 1, t);
  }

  // ----- the search, as the code runs it -----

  /** The length of the match of `p` starting at `i`. */
  method MatchHere(s: bytes, i: nat, p: bytes) returns (r: Option<nat>)
    ensures r == MatchLen(s, i, Parse(p, 0, false))
    decreases |p|, 1
  {
    hide Run, Down, Up, MatchLen, Parse, UnitAt, ItemLen, BracketStop, SetElems, CloseParen, UnitAccepts;
    var si := i;
    var pi := 0;
    ghost var goal := MatchLen(s, i, Parse(p, 0, false));
    while pi < |p|
      invariant i <= si
      invariant goal == Add(si - i, MatchLen(s, si, Parse(p, pi, false)))
      decreases |p| - pi
    {
      ParseStep(p, pi, false);
      LenEnds(s, si);
      if p[pi] == DOLLAR {
        return if si == |s| then Some(si - i) else None;
      }
      var itemLen := ItemSize(p, pi);
      if itemLen == 0 {
        return None;
      }
      var quant := QuantAt(p, pi + itemLen);
      if quant == Once {
        LenOnce(s, si, UnitAt(p, pi), Parse(p, pi + itemLen, false));
        var n := MatchItem(s, si, p, pi);
        if n.None? {
          return None;
        }
        si := si + n.value;
        pi := pi + itemLen;
      } else {
        r := MatchQuantified(s, si, p, pi, itemLen);
        return if r.Some? then Some(si - i + r.value) else None;
      }
    }
    ParseStep(p, pi, false);
    LenEnds(s, si);
    return Some(si - i);
  }

  /** The quantified item at `pi`, followed by the rest of the pattern. */
  method MatchQuantified(s: bytes, si: nat, p: bytes, pi: nat, itemLen: nat) returns (r: Option<nat>)
    requires pi < |p| && p[pi] != DOLLAR && itemLen == ItemLen(p, pi) && ItemQuant(p, pi) != Once
    ensures r == MatchLen(s, si, Parse(p, pi, false))
    decreases |p|, 0
  {
    hide Run, Down, Up, MatchLen, Parse, UnitAt, ItemLen, BracketStop, SetElems, CloseParen, UnitAccepts, Uses;
    ParseStep(p, pi, false);
    ParseShift(p, NextItem(p, pi), 0, false);
    var restPi := pi + itemLen + 1;
    var q := QuantAt(p, pi + itemLen);
    if q == Opt {
      r := MatchOptional(s, si, p, pi, restPi);
    } else if q == Lazy {
      r := MatchLazy(s, si, p, pi, restPi);
    } else {
      r := MatchGreedy(s, si, p, pi, restPi, q);
    }
  }

  /** `?`: with the item first, then without it. */
  method MatchOptional(s: bytes, si: nat, p: bytes, pi: nat, restPi: nat) returns (r: Option<nat>)
    requires pi < restPi <= |p|
    ensures r == MatchLen(s, si, Then(UnitAt(p, pi), Opt, Parse(p[restPi..], 0, false)))
    decreases |p| - 1, 2
  {
    hide Run, Down, Up, Parse, UnitAt, ItemLen, BracketStop, SetElems, CloseParen, UnitAccepts, Uses;
    ghost var u, rest := UnitAt(p, pi), Parse(p[restPi..], 0, false);
    RunThen(s, si, u, rest);
    LenDown(s, si, u, Opt, rest, 1, 0);
    LenDown(s, si, u, Opt, rest, 0, 0);
    var n := MatchItem(s, si, p, pi);
    if n.Some? {
      var len := MatchHere(s, si + n.value, p[restPi..]);
      if len.Some? {
        return Some(n.value + len.value);
      }
    }
    r := MatchHere(s, si, p[restPi..]);
  }

  /** `*` and `+`: as many uses as possible, then one fewer at a time. */
  method MatchGreedy(s: bytes, si: nat, p: bytes, pi: nat, restPi: nat, q: Quant) returns (r: Option<nat>)
    requires pi < restPi <= |p|
    requires q == Star || q == Plus
    ensures r == MatchLen(s, si, Then(UnitAt(p, pi), q, Parse(p[restPi..], 0, false)))
    decreases |p| - 1, 2
  {
    hide Run, Down, Up, Parse, UnitAt, ItemLen, BracketStop, SetElems, CloseParen, UnitAccepts, Uses;
    ghost var u, rest := UnitAt(p, pi), Parse(p[restPi..], 0, false);
    RunThen(s, si, u, rest);
    var min := if q == Star then 0 else 1;
    var max := CountUses(s, si, p, pi);
    var k := max;
    UsesIsMax(u, s, si, 0);
    while true
      invariant 0 <= k && (u.Anchor? ==> k == 0)
      invariant MatchLen(s, si, Then(u, q, rest)) == Len(Then(u, q, rest), Down(s, si, u, rest, k, min))
      decreases k
    {
      LenDown(s, si, u, q, rest, k, min);
      if k >= min {
        var len := MatchHere(s, si + k, p[restPi..]);
        if len.Some? {
          return Some(k + len.value);
        }
      }
      if k == 0 {
        return None;
      }
      k := k - 1;
    }
  }

  /** How many times in a row the item at `pi` matches, an empty match ending the count. */
  method CountUses(s: bytes, si: nat, p: bytes, pi: nat) returns (k: nat)
    requires pi < |p|
    ensures k == Uses(UnitAt(p, pi), s, si)
  {
    ghost var u := UnitAt(p, pi);
    var end := si;
    var n := MatchItem(s, end, p, pi);
    while n.Some? && n.value != 0
      invariant si <= end
      invariant n == Take(u, s, end)
      invariant Uses(u, s, si) == end - si + Uses(u, s, end)
      decreases |s| - end
    {
      end := end + n.value;
      n := MatchItem(s, end, p, pi);
    }
    return end - si;
  }

  /** `-`: the rest with 0, 1, 2, ... uses. */
  method MatchLazy(s: bytes, si: nat, p: bytes, pi: nat, restPi: nat) returns (r: Option<nat>)
    requires pi < restPi <= |p|
    ensures r == MatchLen(s, si, Then(UnitAt(p, pi), Lazy, Parse(p[restPi..], 0, false)))
    decreases |p| - 1, 2
  {
    hide Run, Down, Up, Parse, UnitAt, ItemLen, BracketStop, SetElems, CloseParen, UnitAccepts, Uses;
    ghost var u, rest := UnitAt(p, pi), Parse(p[restPi..], 0, false);
    RunThen(s, si, u, rest);
    var end := si;
    while true
      invariant si <= end && AllowedCount(u, Lazy, end - si)
      invariant MatchLen(s, si, Then(u, Lazy, rest)) == Len(Then(u, Lazy, rest), Up(s, si, u, rest, end - si))
      decreases if end <= |s| then |s| - end + 1 else 0
    {
      LenUp(s, si, u, rest, end - si);
      var len := MatchHere(s, end, p[restPi..]);
      if len.Some? {
        return Some(end - si + len.value);
      }
      var n := MatchItem(s, end, p, pi);
      if n.Some? && n.value > 0 {
        end := end + n.value;
      } else {
        return None;
      }
    }
  }
}
