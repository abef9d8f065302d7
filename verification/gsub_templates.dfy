/** What replacements mean: templates as sequences of bytes, whole matches and captures, tables
    asked for the first capture, and what `gmatch` yields. */
module GsubTemplates {
  import opened Core
  import opened PatternCaptures
  import opened PatternFind
  import opened Gsub

  // ----- templates, piece by piece -----

  /** A byte to be put in as it is, the whole match, or the `d`-th capture. */
  datatype Piece = Byte(b: byte) | Whole | Capture(d: nat)

  predicate WrittenPiece(x: Piece) {
    x.Capture? ==> 1 <= x.d <= 9
  }

  /** `%%` for a percent sign, `%0` for the match, `%1` to `%9` for the captures. */
  function PieceBytes(x: Piece): bytes
    requires WrittenPiece(x)
  {
    match x
    case Byte(b) => if b == 0x25 then [0x25, 0x25] else [b]
    case Whole => [0x25, 0x30]
    case Capture(d) => [0x25, 0x30 + d]
  }

  predicate Written(xs: seq<Piece>) {
    forall k :: 0 <= k < |xs| ==> WrittenPiece(xs[k])
  }

  function TemplateBytes(xs: seq<Piece>): bytes
    requires Written(xs)
  {
    if xs == [] then [] else PieceBytes(xs[0]) + TemplateBytes(xs[1..])
  }

  /** The match has the captures the template asks for. */
  predicate Has(m: Match, xs: seq<Piece>) {
    forall k :: 0 <= k < |xs| ==> (xs[k].Capture? ==> 1 <= xs[k].d <= |m.caps|)
  }

  ghost predicate Inside(s: bytes, m: Match) {
    m.start <= m.end <= |s| && SpansIn(m.caps, |s|)
  }

  /** The bytes a piece stands for. */
  function PieceText(s: bytes, m: Match, x: Piece): bytes
    requires Inside(s, m) && (x.Capture? ==> 1 <= x.d <= |m.caps|)
  {
    match x
    case Byte(b) => [b]
    case Whole => s[m.start..m.end]
    case Capture(d) => var (from, to) := m.caps[d - 1]; s[from..to]
  }

  function Meaning(s: bytes, m: Match, xs: seq<Piece>): bytes
    requires Inside(s, m) && Has(m, xs)
  {
    if xs == [] then [] else PieceText(s, m, xs[0]) + Meaning(s, m, xs[1..])
  }

  /** A template expands to what its pieces stand for, one after the other, exactly when the match
      has the captures asked for and the result fits the replacement buffer. */
  lemma {:induction false} TemplateExpands(s: bytes, m: Match, pre: bytes, xs: seq<Piece>, acc: bytes)
    requires Inside(s, m) && Written(xs) && |acc| <= REPL_CAP
    ensures var r := Expand(s, m, pre + TemplateBytes(xs), |pre|, acc);
            (r.Ok? <==> Has(m, xs) && |acc| + |Meaning(s, m, xs)| <= REPL_CAP) &&
            (r.Ok? ==> r.value == acc + Meaning(s, m, xs)) &&
            (!Has(m, xs) ==> r == Err(BadCapture) || r == Err(TooLong)) &&
            (r.Err? && Has(m, xs) ==> r == Err(TooLong))
    decreases |xs|
  {
    hide Expand, Has, Meaning, TemplateBytes, PieceBytes, PieceText, SpansIn;
    if xs == [] {
      NoPieces(s, m);
      ExpandEnds(s, m, pre + TemplateBytes(xs), |pre|, acc);
      assert acc + [] == acc;
    } else {
      assert WrittenPiece(xs[0]);
      FirstPiece(m, xs);
      var b, more := PieceBytes(xs[0]), TemplateBytes(xs[1..]);
      assert pre + (b + more) == (pre + b) + more;
      PieceAt(pre, b, more);
      ExpandPiece(s, m, pre + b + more, |pre|, xs[0], acc);
      if xs[0].Capture? ==> xs[0].d <= |m.caps| {
        var text := PieceText(s, m, xs[0]);
        if |acc| + |text| <= REPL_CAP {
          TemplateExpands(s, m, pre + b, xs[1..], acc + text);
          if Has(m, xs[1..]) {
            FirstMeaning(s, m, xs);
            assert acc + text + Meaning(s, m, xs[1..]) == acc + (text + Meaning(s, m, xs[1..]));
          }
        } else if Has(m, xs) {
          FirstMeaning(s, m, xs);
        }
      }
    }
  }

  lemma NoPieces(s: bytes, m: Match)
    requires Inside(s, m)
    ensures TemplateBytes([]) == [] && Has(m, []) && Meaning(s, m, []) == []
  {}

  lemma ExpandEnds(s: bytes, m: Match, t: bytes, ri: nat, acc: bytes)
    requires Inside(s, m) && ri >= |t|
    ensures Expand(s, m, t, ri, acc) == Ok(acc)
  {}

  lemma PieceAt(pre: bytes, b: bytes, more: bytes)
    ensures forall i :: 0 <= i < |b| ==> (pre + b + more)[|pre| + i] == b[i]
  {}

  lemma FirstPiece(m: Match, xs: seq<Piece>)
    requires xs != [] && Written(xs)
    ensures Written(xs[1..]) && TemplateBytes(xs) == PieceBytes(xs[0]) + TemplateBytes(xs[1..])
    ensures Has(m, xs) <==> (xs[0].Capture? ==> xs[0].d <= |m.caps|) && Has(m, xs[1..])
  {
    hide PieceBytes;
    assert WrittenPiece(xs[0]);
    HasParts(m, xs);
  }

  lemma FirstMeaning(s: bytes, m: Match, xs: seq<Piece>)
    requires xs != [] && Inside(s, m) && Has(m, xs)
    ensures Has(m, xs[1..]) && (xs[0].Capture? ==> 1 <= xs[0].d <= |m.caps|)
    ensures Meaning(s, m, xs) == PieceText(s, m, xs[0]) + Meaning(s, m, xs[1..])
  {}

  lemma HasParts(m: Match, xs: seq<Piece>)
    requires xs != [] && WrittenPiece(xs[0])
    ensures Has(m, xs) <==> (xs[0].Capture? ==> xs[0].d <= |m.caps|) && Has(m, xs[1..])
  {
    if (xs[0].Capture? ==> xs[0].d <= |m.caps|) && Has(m, xs[1..]) {
      forall k | 0 <= k < |xs| ensures xs[k].Capture? ==> 1 <= xs[k].d <= |m.caps| {
        if k > 0 {
          assert xs[k] == xs[1..][k - 1];
        }
      }
    }
  }

  lemma ExpandPiece(s: bytes, m: Match, t: bytes, ri: nat, x: Piece, acc: bytes)
    requires Inside(s, m) && WrittenPiece(x) && |acc| <= REPL_CAP && ri + |PieceBytes(x)| <= |t|
    requires forall i :: 0 <= i < |PieceBytes(x)| ==> t[ri + i] == PieceBytes(x)[i]
    ensures Expand(s, m, t, ri, acc) ==
            if x.Capture? && x.d > |m.caps| then Err(BadCapture)
            else if |acc| + |PieceText(s, m, x)| > REPL_CAP then Err(TooLong)
            else Expand(s, m, t, ri + |PieceBytes(x)|, acc + PieceText(s, m, x))
  {
    hide SpansIn;
    assert t[ri] == PieceBytes(x)[0];
    if |PieceBytes(x)| == 2 {
      assert t[ri + 1] == PieceBytes(x)[1];
    }
  }

  /** The replacement a template puts in place of a match. */
  lemma TemplateChosen(s: bytes, m: Match, xs: seq<Piece>)
    requires Inside(s, m) && Written(xs)
    ensures var c := Chosen(s, m, Template(TemplateBytes(xs)));
            (c.Ok? <==> Has(m, xs) && |Meaning(s, m, xs)| <= REPL_CAP) && (c.Ok? ==> c.value == Some(Meaning(s, m, xs)))
  {
    hide Expand;
    assert [] + TemplateBytes(xs) == TemplateBytes(xs);
    TemplateExpands(s, m, [], xs, []);
    if Has(m, xs) {
      assert [] + Meaning(s, m, xs) == Meaning(s, m, xs);
    }
  }

  /** Templates written one after the other put in what each puts in, one after the other. */
  lemma {:induction false} MeaningConcat(s: bytes, m: Match, xs: seq<Piece>, ys: seq<Piece>)
    requires Inside(s, m) && Written(xs) && Written(ys) && Has(m, xs) && Has(m, ys)
    ensures Has(m, xs + ys) && TemplateBytes(xs + ys) == TemplateBytes(xs) + TemplateBytes(ys)
    ensures Meaning(s, m, xs + ys) == Meaning(s, m, xs) + Meaning(s, m, ys)
    decreases |xs|
  {
    hide Has, Meaning, TemplateBytes, PieceBytes, PieceText, WrittenPiece;
    if xs == [] {
      assert xs + ys == ys;
      NoPieces(s, m);
      assert [] + TemplateBytes(ys) == TemplateBytes(ys) && [] + Meaning(s, m, ys) == Meaning(s, m, ys);
    } else {
      assert (xs + ys)[1..] == xs[1..] + ys && (xs + ys)[0] == xs[0];
      FirstPiece(m, xs);
      FirstPiece(m, xs + ys);
      MeaningConcat(s, m, xs[1..], ys);
      FirstMeaning(s, m, xs);
      FirstMeaning(s, m, xs + ys);
      Associate(PieceBytes(xs[0]), TemplateBytes(xs[1..]), TemplateBytes(ys));
      Associate(PieceText(s, m, xs[0]), Meaning(s, m, xs[1..]), Meaning(s, m, ys));
    }
  }

  lemma Associate(a: bytes, b: bytes, c: bytes)
    ensures a + (b + c) == a + b + c
  {}

  function Plain(t: bytes): (xs: seq<Piece>)
    ensures Written(xs) && |xs| == |t| && forall m: Match :: Has(m, xs)
  {
    seq(|t|, k requires 0 <= k < |t| => Byte(t[k]))
  }

  /** A template without `%` puts in itself. */
  lemma {:induction false} PlainMeansItself(s: bytes, m: Match, t: bytes)
    requires Inside(s, m) && 0x25 !in t
    ensures TemplateBytes(Plain(t)) == t && Meaning(s, m, Plain(t)) == t
    decreases |t|
  {
    if t != [] {
      assert Plain(t)[1..] == Plain(t[1..]);
      assert t == [t[0]] + t[1..];
      PlainMeansItself(s, m, t[1..]);
    }
  }

  // ----- the subject with the pieces put in -----

  /** The subject from `pos` on with the pieces in place of the matches, everything else kept. */
  ghost function Filled(s: bytes, pos: nat, ms: seq<Match>, xs: seq<Piece>): bytes
    requires Ordered(s, pos, ms) && forall k :: 0 <= k < |ms| ==> Has(ms[k], xs)
    decreases |ms|
  {
    if ms == [] then if pos <= |s| then s[pos..] else []
    else
      var m := ms[0];
      var kept := if m.start == m.end && m.start < |s| then [s[m.start]] else [];
      var next := if m.start == m.end then m.start + 1 else m.end;
      s[pos..m.start] + Meaning(s, m, xs) + kept + Filled(s, next, ms[1..], xs)
  }

  /** A template that every replaced match can fill is put in place of the matches, up to the
      limit; the count is the number of matches replaced. */
  lemma {:induction false} TemplateFills(s: bytes, pos: nat, ms: seq<Match>, xs: seq<Piece>, budget: nat)
    requires Ordered(s, pos, ms) && Written(xs)
    ensures var n := if |ms| <= budget then |ms| else budget;
            var goal := Replaced(s, pos, ms, Template(TemplateBytes(xs)), budget);
            Ordered(s, pos, ms[..n]) &&
            (goal.Some? <==> forall k :: 0 <= k < n ==>
                               Inside(s, ms[k]) && Has(ms[k], xs) && |Meaning(s, ms[k], xs)| <= REPL_CAP) &&
            (goal.Some? ==> goal.value == (Filled(s, pos, ms[..n], xs), n))
    decreases |ms|
  {
    hide Chosen, Replaced, Expand, SpansIn, Has, Meaning, TemplateBytes, Written, Filled, Tail, Gap, Ordered;
    var repl := Template(TemplateBytes(xs));
    var n := if |ms| <= budget then |ms| else budget;
    ReplacedStep(s, pos, ms, repl, budget);
    if n == 0 {
      assert ms[..n] == [];
      FilledEnds(s, pos, xs);
    } else {
      var m := ms[0];
      TemplateChosen(s, m, xs);
      TemplateFills(s, NextPos(m), ms[1..], xs, budget - 1);
      var tail := ms[1..][..n - 1];
      assert ms[..n] == [m] + tail;
      OrderedCons(s, pos, m, tail);
      assert forall k :: 0 <= k < |tail| ==> tail[k] == ms[k + 1];
      assert forall k :: 1 <= k < n ==> ms[k] == ms[1..][k - 1];
      if Replaced(s, pos, ms, repl, budget).Some? {
        FilledStep(s, pos, m, tail, xs);
      }
    }
  }

  lemma FilledEnds(s: bytes, pos: nat, xs: seq<Piece>)
    ensures Ordered(s, pos, []) && Filled(s, pos, [], xs) == Tail(s, pos)
  {
    assert s[|s|..] == [];
  }

  lemma OrderedCons(s: bytes, pos: nat, m: Match, ms: seq<Match>)
    requires pos <= m.start <= m.end <= |s| && SpansIn(m.caps, |s|) && Ordered(s, NextPos(m), ms)
    ensures Ordered(s, pos, [m] + ms)
  {
    assert ([m] + ms)[1..] == ms;
  }

  lemma FilledStep(s: bytes, pos: nat, m: Match, ms: seq<Match>, xs: seq<Piece>)
    requires pos <= m.start <= m.end <= |s| && SpansIn(m.caps, |s|) && Ordered(s, NextPos(m), ms)
    requires Has(m, xs) && forall k :: 0 <= k < |ms| ==> Has(ms[k], xs)
    ensures Ordered(s, pos, [m] + ms) && forall k :: 0 <= k < |[m] + ms| ==> Has(([m] + ms)[k], xs)
    ensures Filled(s, pos, [m] + ms, xs) ==
            s[pos..m.start] + Meaning(s, m, xs) + Gap(s, m) + Filled(s, NextPos(m), ms, xs)
  {
    hide Has, Meaning, SpansIn;
    assert ([m] + ms)[1..] == ms;
  }

  // ----- well-formed patterns -----

  /** How many more `(` than `)` the first `k` bytes have, not counting those behind a `%`. */
  function Depth(p: bytes, k: nat): int
    requires k <= |p|
    decreases k
  {
    if k == 0 then 0
    else if k >= 2 && Escaping(p, k - 2) then Depth(p, k - 1)
    else Depth(p, k - 1) + if p[k - 1] == 0x28 then 1 else if p[k - 1] == 0x29 then -1 else 0
  }

  /** The byte at `k` is a `%` that is not itself behind such a one. */
  predicate Escaping(p: bytes, k: nat)
    requires k < |p|
    decreases k
  {
    p[k] == 0x25 && (k == 0 || !Escaping(p, k - 1))
  }

  /** A pattern is accepted exactly when its parentheses match up: never more closed than opened,
      and as many in all. */
  lemma BalancedMeans(p: bytes)
    ensures Balanced(p, 0, 0) <==> Depth(p, |p|) == 0 && forall k :: 0 <= k <= |p| ==> Depth(p, k) >= 0
  {
    BalancedFrom(p, 0);
  }

  lemma {:induction false} BalancedFrom(p: bytes, i: nat)
    requires i <= |p| && (i > 0 ==> !Escaping(p, i - 1)) && Depth(p, i) >= 0
    ensures Balanced(p, i, Depth(p, i)) <==>
            Depth(p, |p|) == 0 && forall k :: i <= k <= |p| ==> Depth(p, k) >= 0
    decreases |p| - i
  {
    if i < |p| {
      if p[i] == 0x25 && i + 1 < |p| {
        assert Escaping(p, i);
        assert Depth(p, i + 1) == Depth(p, i) && Depth(p, i + 2) == Depth(p, i);
        assert !Escaping(p, i + 1);
        BalancedFrom(p, i + 2);
      } else if p[i] == 0x25 {
        assert Depth(p, i + 1) == Depth(p, i);
      } else {
        assert !Escaping(p, i);
        assert Depth(p, i + 1) == Depth(p, i) + if p[i] == 0x28 then 1 else if p[i] == 0x29 then -1 else 0;
        if Depth(p, i + 1) >= 0 {
          BalancedFrom(p, i + 1);
        } else {
          assert p[i] == 0x29 && Depth(p, i) == 0;
          assert !Balanced(p, i, 0);
        }
      }
    }
  }

  // ----- the other replacements -----

  /** A table is asked for the first capture, or for the whole match if there is none. */
  lemma TableAsked(s: bytes, m: Match, table: bytes -> Hit)
    requires Inside(s, m)
    ensures var key := if |m.caps| == 0 then s[m.start..m.end] else s[m.caps[0].0..m.caps[0].1];
            Chosen(s, m, Lookup(table)) ==
            match table(key)
            case Keep => Ok(None)
            case NoText => Err(BadValue)
            case Text(t) => if |t| > REPL_CAP then Err(TooLong) else Ok(Some(t))
  {}

  /** A number is put in as its text. */
  lemma NumberPut(s: bytes, m: Match, t: bytes)
    requires Inside(s, m) && |t| <= REPL_CAP
    ensures Chosen(s, m, Number(t)) == Ok(Some(t))
  {}
}
