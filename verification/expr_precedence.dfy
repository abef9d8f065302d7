/** Which operators bind tighter, told by tokens alone, and what the other tokens build. */
module ExprPrecedence {
  import opened Core
  import opened ExprGrammar
  import opened ExprRoundTrip
  import opened ExprArena

  /** A literal or a name. */
  predicate IsAtom(t: Tok) {
    t.TNum? || t.TFloat? || t.TStr? || t == TTrue || t == TFalse || t == TNil || t.TName?
  }

  function AtomOf(t: Tok): Expr
    requires IsAtom(t)
  {
    match t
    case TNum(v) => Num(v)
    case TFloat(d) => Float(d)
    case TStr(s) => Str(s)
    case TName(n) => Var(n)
    case TTrue => True
    case TFalse => False
    case TNil => Nil
  }

  /** How tight a binary operator binds: `or`, `and`, comparisons, `..`, `+ -`, `* / %`. */
  function Tightness(t: Tok): nat {
    match t
    case TOr => 1
    case TAnd => 2
    case TEqEq => 3 case TNeq => 3 case TLt => 3 case TLe => 3 case TGt => 3 case TGe => 3
    case TDotDot => 4
    case TPlus => 5 case TMinus => 5
    case TStar => 6 case TSlash => 6 case TPercent => 6
    case _ => 0
  }

  predicate IsBinary(t: Tok) { Tightness(t) > 0 }

  function Operation(t: Tok): Op
    requires IsBinary(t)
  {
    match t
    case TOr => Or case TAnd => And
    case TEqEq => Eq case TNeq => Ne case TLt => Lt case TLe => Le case TGt => Gt case TGe => Ge
    case TDotDot => Concat
    case TPlus => Add case TMinus => Sub
    case TStar => Mul case TSlash => Div case TPercent => Mod
  }

  predicate IsPrefix(t: Tok) { t == TNot || t == TMinus }

  function PrefixOperation(t: Tok): Op
    requires IsPrefix(t)
  {
    if t == TNot then Not else Neg
  }

  /** A token that cannot continue an expression. */
  predicate Ends(t: Tok) {
    !IsBinary(t) && t != TDot && t != TColon && t != TLBracket && t != TLParen
  }

  lemma EndsStops(t: Tok)
    requires Ends(t)
    ensures !StartsSuffix(t) && BinOp(t).None?
  {}

  /** The printed form of atoms and operators. */
  lemma AtomPrints(x: Tok, l: nat)
    requires IsAtom(x) && l <= PRIMARY
    ensures WellFormed(AtomOf(x)) && Print(AtomOf(x), l) == [x] && Count(AtomOf(x)) == 1
  {}

  lemma BinaryPrints(p: Tok, a: Expr, b: Expr)
    requires IsBinary(p)
    ensures OpTok(Operation(p)) == p && Operation(p) != Not && Operation(p) != Neg
    ensures Level(Bin(Operation(p), a, b)) + 1 == Tightness(p)
    ensures Plain(Bin(Operation(p), a, b)) ==
            if p == TDotDot then Print(a, Tightness(p)) + ([p] + Print(b, Tightness(p) - 1))
            else Print(a, Tightness(p) - 1) + ([p] + Print(b, Tightness(p)))
  {
    hide Print;
  }

  /** Operators that bind tighter take their operands first; of equals the left one, except that
      `..` takes the right one. */
  predicate RightFirst(p: Tok, q: Tok) {
    Tightness(q) > Tightness(p) || (p == TDotDot && q == TDotDot)
  }

  /** `x p y q z`. */
  lemma Groups(x: Tok, p: Tok, y: Tok, q: Tok, z: Tok, t: seq<Tok>)
    requires IsAtom(x) && IsAtom(y) && IsAtom(z) && IsBinary(p) && IsBinary(q) && Ends(Head(t))
    ensures var a, b, c := AtomOf(x), AtomOf(y), AtomOf(z);
            ParseAt(OR, [x, p, y, q, z] + t) ==
            Got(if RightFirst(p, q) then Bin(Operation(p), a, Bin(Operation(q), b, c))
                else Bin(Operation(q), Bin(Operation(p), a, b), c), t, 5)
  {
    hide ParseAt, Print, Plain, AtomOf, Operation, Tightness;
    var a, b, c := AtomOf(x), AtomOf(y), AtomOf(z);
    EndsStops(Head(t));
    if RightFirst(p, q) {
      RightPrints(x, p, y, q, z);
      PrintThenParse(Bin(Operation(p), a, Bin(Operation(q), b, c)), t);
    } else {
      LeftPrints(x, p, y, q, z);
      PrintThenParse(Bin(Operation(q), Bin(Operation(p), a, b), c), t);
    }
  }

  lemma AtomsPrint(x: Tok, y: Tok, z: Tok)
    requires IsAtom(x) && IsAtom(y) && IsAtom(z)
    ensures forall l: nat :: l <= PRIMARY ==>
              Print(AtomOf(x), l) == [x] && Print(AtomOf(y), l) == [y] && Print(AtomOf(z), l) == [z]
    ensures WellFormed(AtomOf(x)) && WellFormed(AtomOf(y)) && WellFormed(AtomOf(z))
    ensures Count(AtomOf(x)) == Count(AtomOf(y)) == Count(AtomOf(z)) == 1
  {
    forall l: nat | l <= PRIMARY
      ensures Print(AtomOf(x), l) == [x] && Print(AtomOf(y), l) == [y] && Print(AtomOf(z), l) == [z]
    {
      AtomPrints(x, l);
      AtomPrints(y, l);
      AtomPrints(z, l);
    }
    AtomPrints(x, 0);
    AtomPrints(y, 0);
    AtomPrints(z, 0);
  }

  lemma TightnessBound(p: Tok)
    ensures Tightness(p) <= 6 && (p == TDotDot ==> Tightness(p) == 4)
    ensures Tightness(p) == 4 ==> p == TDotDot
  {}

  lemma RightPrints(x: Tok, p: Tok, y: Tok, q: Tok, z: Tok)
    requires IsAtom(x) && IsAtom(y) && IsAtom(z) && IsBinary(p) && IsBinary(q) && RightFirst(p, q)
    ensures var e := Bin(Operation(p), AtomOf(x), Bin(Operation(q), AtomOf(y), AtomOf(z)));
            Print(e, OR) == [x, p, y, q, z] && WellFormed(e) && Count(e) == 5
  {
    hide Plain, AtomOf, Operation, Tightness, OpTok, Level;
    var a, b, c := AtomOf(x), AtomOf(y), AtomOf(z);
    AtomsPrint(x, y, z);
    TightnessBound(p);
    TightnessBound(q);
    BinaryPrints(p, a, Bin(Operation(q), b, c));
    BinaryPrints(q, b, c);
  }

  lemma LeftPrints(x: Tok, p: Tok, y: Tok, q: Tok, z: Tok)
    requires IsAtom(x) && IsAtom(y) && IsAtom(z) && IsBinary(p) && IsBinary(q) && !RightFirst(p, q)
    ensures var e := Bin(Operation(q), Bin(Operation(p), AtomOf(x), AtomOf(y)), AtomOf(z));
            Print(e, OR) == [x, p, y, q, z] && WellFormed(e) && Count(e) == 5
  {
    hide Plain, AtomOf, Operation, Tightness, OpTok, Level;
    var a, b, c := AtomOf(x), AtomOf(y), AtomOf(z);
    AtomsPrint(x, y, z);
    TightnessBound(p);
    TightnessBound(q);
    BinaryPrints(q, Bin(Operation(p), a, b), c);
    BinaryPrints(p, a, b);
  }

  lemma PrefixPrints(u: Tok, e: Expr)
    requires IsPrefix(u)
    ensures Plain(Un(PrefixOperation(u), e)) == [u] + Print(e, UNARY) && Level(Un(PrefixOperation(u), e)) == UNARY
    ensures PrefixOperation(u) == Not || PrefixOperation(u) == Neg
  {}

  /** `u x p y`: `not` and the unary minus bind tighter than every binary operator. */
  lemma PrefixFirst(u: Tok, x: Tok, p: Tok, y: Tok, t: seq<Tok>)
    requires IsPrefix(u) && IsAtom(x) && IsAtom(y) && IsBinary(p) && Ends(Head(t))
    ensures ParseAt(OR, [u, x, p, y] + t) ==
            Got(Bin(Operation(p), Un(PrefixOperation(u), AtomOf(x)), AtomOf(y)), t, 4)
  {
    hide ParseAt, Plain, AtomOf, Operation, Tightness, OpTok, Level;
    var a, b := Un(PrefixOperation(u), AtomOf(x)), AtomOf(y);
    EndsStops(Head(t));
    AtomsPrint(x, y, y);
    TightnessBound(p);
    PrefixPrints(u, AtomOf(x));
    BinaryPrints(p, a, b);
    assert Print(Bin(Operation(p), a, b), OR) == [u, x, p, y];
    PrintThenParse(Bin(Operation(p), a, b), t);
  }

  /** `x p u y`, and `u v x`. */
  lemma PrefixOperand(x: Tok, p: Tok, u: Tok, y: Tok, t: seq<Tok>)
    requires IsPrefix(u) && IsAtom(x) && IsAtom(y) && IsBinary(p) && Ends(Head(t))
    ensures ParseAt(OR, [x, p, u, y] + t) ==
            Got(Bin(Operation(p), AtomOf(x), Un(PrefixOperation(u), AtomOf(y))), t, 4)
  {
    hide ParseAt, Plain, AtomOf, Operation, Tightness, OpTok, Level;
    var a, b := AtomOf(x), Un(PrefixOperation(u), AtomOf(y));
    EndsStops(Head(t));
    AtomsPrint(x, y, y);
    TightnessBound(p);
    PrefixPrints(u, AtomOf(y));
    BinaryPrints(p, a, b);
    assert Print(Bin(Operation(p), a, b), OR) == [x, p, u, y];
    PrintThenParse(Bin(Operation(p), a, b), t);
  }

  lemma PrefixPrefix(u: Tok, v: Tok, x: Tok, t: seq<Tok>)
    requires IsPrefix(u) && IsPrefix(v) && IsAtom(x) && Ends(Head(t))
    ensures ParseAt(OR, [u, v, x] + t) == Got(Un(PrefixOperation(u), Un(PrefixOperation(v), AtomOf(x))), t, 3)
  {
    hide ParseAt, Plain, AtomOf, Level;
    var e := Un(PrefixOperation(v), AtomOf(x));
    EndsStops(Head(t));
    AtomsPrint(x, x, x);
    PrefixPrints(v, AtomOf(x));
    PrefixPrints(u, e);
    assert Print(Un(PrefixOperation(u), e), OR) == [u, v, x];
    PrintThenParse(Un(PrefixOperation(u), e), t);
  }

  // ----- parentheses and suffixes -----

  /** Behind a complete operand, `.name` indexes by the name. */
  lemma DotMeans(e: Expr, n: bytes, rest: seq<Tok>, cost: nat)
    ensures Suffix(e, [TDot, TName(n)] + rest, cost) == Suffix(Index(e, Str(n)), rest, cost + 2)
  {
    hide ParseAt, ParseArgs, Suffix;
    var toks := [TDot, TName(n)] + rest;
    SuffixStep(e, toks, cost);
    assert toks[1..] == [TName(n)] + rest && toks[1..][1..] == rest;
  }

  /** `[key]` indexes by the key. */
  lemma BracketMeans(e: Expr, rest: seq<Tok>, cost: nat)
    ensures Suffix(e, [TLBracket] + rest, cost) ==
            match ParseAt(OR, rest)
            case Fail => Fail
            case Got(k, more, c) => if Head(more) == TRBracket then Suffix(Index(e, k), more[1..], cost + c + 1) else Fail
  {
    hide ParseAt, ParseArgs, Suffix;
    SuffixStep(e, [TLBracket] + rest, cost);
    assert ([TLBracket] + rest)[1..] == rest;
  }

  /** `(args)` calls. */
  lemma CallMeans(e: Expr, rest: seq<Tok>, cost: nat)
    ensures Suffix(e, [TLParen] + rest, cost) ==
            match ParseArgs(rest)
            case NoList => Fail
            case List(args, more, c) => Suffix(Call(e, args), more, cost + c + 1)
  {
    hide ParseAt, ParseArgs, Suffix;
    SuffixStep(e, [TLParen] + rest, cost);
    assert ([TLParen] + rest)[1..] == rest;
  }

  /** `:name(args)` calls the method, with its receiver in front of the arguments. */
  lemma MethodMeans(e: Expr, n: bytes, rest: seq<Tok>, cost: nat)
    ensures Suffix(e, [TColon, TName(n), TLParen] + rest, cost) ==
            match ParseArgs(rest)
            case NoList => Fail
            case List(args, more, c) => Suffix(Call(Index(e, Str(n)), Arg(e, args)), more, cost + c + 4)
  {
    hide ParseAt, ParseArgs, Suffix;
    var toks := [TColon, TName(n), TLParen] + rest;
    SuffixStep(e, toks, cost);
    assert toks[1..] == [TName(n), TLParen] + rest && toks[1..][1..] == [TLParen] + rest && toks[1..][1..][1..] == rest;
  }

  /** Arguments are read in order, separated by commas, up to the parenthesis. */
  lemma ArgumentsMean(rest: seq<Tok>)
    ensures ParseArgs([TRParen] + rest) == List(NoArgs, rest, 0)
    ensures Head(rest) != TRParen ==>
              ParseArgs(rest) ==
              match ParseAt(OR, rest)
              case Fail => NoList
              case Got(e, more, c) =>
                if Head(more) == TRParen then List(Arg(e, NoArgs), more[1..], c + 1)
                else if Head(more) != TComma then NoList
                else
                  match ParseMore(more[1..])
                  case NoList => NoList
                  case List(args, last, c') => List(Arg(e, args), last, c + c' + 1)
  {
    hide ParseAt, ParseMore;
    ArgsStep(rest);
    assert ([TRParen] + rest)[1..] == rest;
  }

  /** A suffix binds tighter than a prefix operator: `u x [ y ]`. */
  lemma SuffixFirst(u: Tok, x: Tok, y: Tok, t: seq<Tok>)
    requires IsPrefix(u) && IsAtom(x) && IsAtom(y) && Ends(Head(t))
    ensures ParseAt(OR, [u, x, TLBracket, y, TRBracket] + t) ==
            Got(Un(PrefixOperation(u), Index(AtomOf(x), AtomOf(y))), t, 4)
  {
    hide ParseAt, AtomOf;
    var e := Index(AtomOf(x), AtomOf(y));
    EndsStops(Head(t));
    AtomsPrint(x, y, y);
    PrefixPrints(u, e);
    AtomPrints(x, PRIMARY);
    AtomPrints(y, OR);
    assert Plain(e) == [x] + ([TLBracket] + [y] + [TRBracket]);
    assert Print(e, UNARY) == [x, TLBracket, y, TRBracket];
    var whole := Un(PrefixOperation(u), e);
    assert Print(whole, OR) == Plain(whole) == [u] + [x, TLBracket, y, TRBracket];
    assert [u] + [x, TLBracket, y, TRBracket] == [u, x, TLBracket, y, TRBracket];
    assert Count(e) == 3 && WellFormed(e);
    PrintThenParse(Un(PrefixOperation(u), e), t);
  }

  lemma BinaryPrinted(y: Tok, q: Tok, z: Tok)
    requires IsAtom(y) && IsAtom(z) && IsBinary(q)
    ensures var e := Bin(Operation(q), AtomOf(y), AtomOf(z)); Print(e, OR) == [y, q, z] && WellFormed(e) && Count(e) == 3
  {
    hide Plain, AtomOf, Operation, Tightness, OpTok, Level;
    AtomsPrint(y, z, z);
    TightnessBound(q);
    BinaryPrints(q, AtomOf(y), AtomOf(z));
  }

  /** Parentheses come first: `( y q z )` is an operand whatever stands beside it. */
  lemma ParensFirst(y: Tok, q: Tok, z: Tok, t: seq<Tok>)
    requires IsAtom(y) && IsAtom(z) && IsBinary(q)
    ensures ParseAt(PRIMARY, [TLParen, y, q, z, TRParen] + t) ==
            Suffix(Bin(Operation(q), AtomOf(y), AtomOf(z)), t, 3)
  {
    hide ParseAt, Print, AtomOf, Operation, Tightness, Suffix, Count, WellFormed;
    var e := Bin(Operation(q), AtomOf(y), AtomOf(z));
    BinaryPrinted(y, q, z);
    PrintThenParse(e, [TRParen] + t);
    var toks := [TLParen, y, q, z, TRParen] + t;
    assert toks[1..] == [y, q, z] + ([TRParen] + t);
    PrimaryLevel(toks);
    assert ([TRParen] + t)[1..] == t;
  }

  // ----- nodes -----

  /** What the nodes of a tree hold: operator and operands from left to right, a table and its key,
      a function and its first argument, each argument linked to the next. */
  lemma NodesMean(ns: seq<Node>, nx: seq<nat>, lo: nat, i: nat, op: Op, a: Expr, b: Expr, args: Args)
    requires lo <= i < |ns| == |nx|
    ensures Denotes(ns, nx, lo, i, Bin(op, a, b)) <==>
            exists l: nat, r: nat | l < i && r < i ::
              ns[i] == NBin(op, l, r) && Denotes(ns, nx, lo, l, a) && Denotes(ns, nx, lo, r, b)
    ensures Denotes(ns, nx, lo, i, Un(op, a)) <==> exists x: nat | x < i :: ns[i] == NUn(op, x) && Denotes(ns, nx, lo, x, a)
    ensures Denotes(ns, nx, lo, i, Index(a, b)) <==>
            exists t: nat, k: nat | t < i && k < i ::
              ns[i] == NIndex(t, k) && Denotes(ns, nx, lo, t, a) && Denotes(ns, nx, lo, k, b)
    ensures Denotes(ns, nx, lo, i, Call(a, args)) <==>
            exists f: nat, first: nat | f < i ::
              ns[i] == NCall(f, first) && Denotes(ns, nx, lo, f, a) && DenotesArgs(ns, nx, lo, i, first, args)
    ensures DenotesArgs(ns, nx, lo, |ns|, i, Arg(a, args)) <==>
            exists e: nat | e < i ::
              ns[i] == NArg(e) && Denotes(ns, nx, lo, e, a) && DenotesArgs(ns, nx, lo, |ns|, nx[i], args)
    ensures DenotesArgs(ns, nx, lo, |ns|, i, NoArgs) <==> i == 0xFFFF
  {}
}
