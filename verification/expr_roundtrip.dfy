/** Parsing a printed expression gives the expression back. */
module ExprRoundTrip {
  import opened Core
  import opened ExprGrammar

  /** Tokens that may follow an operand parsed at level `l`: nothing that a tighter level
      would have taken, and after a right-associative operand no operator of its own level. */
  predicate Follow(l: nat, t: seq<Tok>) {
    l == PRIMARY ||
    (!StartsSuffix(Head(t)) &&
     (BinOp(Head(t)).Some? ==>
        OpLevel(BinOp(Head(t)).value) <= l && (l == CONCAT ==> OpLevel(BinOp(Head(t)).value) < l)))
  }

  /** What a parser of level `l` does once it has read the operand `e`. */
  function Continue(l: nat, e: Expr, t: seq<Tok>, cost: nat): Parsed
    requires l <= PRIMARY
  {
    if LeftAssoc(l) then Loop(l, e, t, cost)
    else if l == PRIMARY then Suffix(e, t, cost)
    else Got(e, t, cost)
  }

  lemma LoopStops(l: nat, e: Expr, t: seq<Tok>, cost: nat)
    requires LeftAssoc(l) && OpAt(l, t).None?
    ensures Loop(l, e, t, cost) == Got(e, t, cost)
  {
    LoopStep(l, e, t, cost);
  }

  lemma SuffixStops(e: Expr, t: seq<Tok>, cost: nat)
    requires !StartsSuffix(Head(t))
    ensures Suffix(e, t, cost) == Got(e, t, cost)
  {}

  /** An operand complete at level `m` is passed on unchanged down to level `l`. */
  lemma {:induction false} Lift(l: nat, m: nat, toks: seq<Tok>, e: Expr, t: seq<Tok>, cost: nat)
    requires l < m <= PRIMARY && ParseAt(m, toks) == Got(e, t, cost)
    requires Follow(l, t) && (m == PRIMARY ==> Head(toks) != TNot && Head(toks) != TMinus)
    ensures ParseAt(l, toks) == Continue(l, e, t, cost)
    decreases m
  {
    hide ParseAt, Loop, ConcatTail;
    if LeftAssoc(m - 1) {
      LoopLevel(m - 1, toks);
    } else if m - 1 == CONCAT {
      ConcatLevel(toks);
    } else {
      UnaryLevel(toks);
    }
    if l < m - 1 {
      if LeftAssoc(m - 1) {
        LoopStops(m - 1, e, t, cost);
      } else if m - 1 == CONCAT {
        ConcatStep(e, t, cost);
      }
      Lift(l, m - 1, toks, e, t, cost);
    } else if l == CONCAT {
      ConcatStep(e, t, cost);
    }
  }

  lemma {:induction false} PrimaryHead(e: Expr, t: seq<Tok>)
    requires Level(e) == PRIMARY
    ensures Plain(e) != [] && Head(Plain(e) + t) != TNot && Head(Plain(e) + t) != TMinus
    decreases e, 0
  {
    match e
    case Index(base, key) => PrintPrimaryHead(base, [TLBracket] + Print(key, OR) + [TRBracket] + t);
    case Call(f, args) => PrintPrimaryHead(f, [TLParen] + PrintArgs(args) + [TRParen] + t);
    case _ =>
  }

  lemma {:induction false} PrintPrimaryHead(e: Expr, t: seq<Tok>)
    ensures Print(e, PRIMARY) != [] &&
            Head(Print(e, PRIMARY)) != TNot && Head(Print(e, PRIMARY)) != TMinus
    decreases e, 1
  {
    if Level(e) == PRIMARY {
      PrimaryHead(e, t);
    }
  }

  lemma ParseAtom(e: Expr, t: seq<Tok>)
    requires e.Num? || e.Float? || e.Str? || e.True? || e.False? || e.Nil? || e.Var?
    ensures ParseAt(PRIMARY, Plain(e) + t) == Suffix(e, t, 1) && Count(e) == 1
  {
    hide ParseAt, Suffix;
    assert (Plain(e) + t)[1..] == t;
    PrimaryLevel(Plain(e) + t);
  }

  lemma ParseParens(toks: seq<Tok>, e: Expr, t: seq<Tok>, cost: nat)
    requires ParseAt(OR, toks) == Got(e, [TRParen] + t, cost)
    ensures ParseAt(PRIMARY, [TLParen] + toks) == Suffix(e, t, cost)
  {
    hide ParseAt, Suffix;
    assert ([TLParen] + toks)[1..] == toks;
    assert ([TRParen] + t)[1..] == t;
    PrimaryLevel([TLParen] + toks);
  }

  lemma ParseUnary(op: Op, toks: seq<Tok>)
    requires op == Not || op == Neg
    ensures ParseAt(UNARY, [OpTok(op)] + toks) ==
            match ParseAt(UNARY, toks) case Fail => Fail case Got(x, rest, c) => Got(Un(op, x), rest, c + 1)
  {
    hide ParseAt;
    assert ([OpTok(op)] + toks)[1..] == toks;
    UnaryLevel([OpTok(op)] + toks);
  }

  lemma LoopTakes(op: Op, e: Expr, toks: seq<Tok>, cost: nat)
    requires op != Not && op != Neg && op != Concat
    ensures LeftAssoc(OpLevel(op))
    ensures Loop(OpLevel(op), e, [OpTok(op)] + toks, cost) ==
            match ParseAt(OpLevel(op) + 1, toks)
            case Fail => Fail
            case Got(r, rest, c) => Loop(OpLevel(op), Bin(op, e, r), rest, cost + c + 1)
  {
    hide ParseAt, LeftAssoc, BinOp, OpTok, Loop;
    OpAtHead(op, toks);
    LoopStep(OpLevel(op), e, [OpTok(op)] + toks, cost);
    hide ParseAt;
    assert ([OpTok(op)] + toks)[1..] == toks;
    UnaryLevel([OpTok(op)] + toks);
  }

  lemma OpAtHead(op: Op, toks: seq<Tok>)
    requires op != Not && op != Neg
    ensures OpAt(OpLevel(op), [OpTok(op)] + toks) == Some(op)
    ensures op != Concat ==> LeftAssoc(OpLevel(op))
  {}

  lemma SuffixIndex(e: Expr, toks: seq<Tok>, k: Expr, t: seq<Tok>, c: nat, cost: nat)
    requires ParseAt(OR, toks) == Got(k, [TRBracket] + t, c)
    ensures Suffix(e, [TLBracket] + toks, cost) == Suffix(Index(e, k), t, cost + c + 1)
  {
    hide ParseAt, Suffix;
    SuffixStep(e, [TLBracket] + toks, cost);
    assert ([TLBracket] + toks)[1..] == toks;
    assert ([TRBracket] + t)[1..] == t;
  }

  lemma SuffixCall(e: Expr, toks: seq<Tok>, args: Args, t: seq<Tok>, c: nat, cost: nat)
    requires ParseArgs(toks) == List(args, t, c)
    ensures Suffix(e, [TLParen] + toks, cost) == Suffix(Call(e, args), t, cost + c + 1)
  {
    hide ParseArgs, Suffix;
    SuffixStep(e, [TLParen] + toks, cost);
    assert ([TLParen] + toks)[1..] == toks;
  }

  /** Reading `e` printed for level `l` leaves the parser of that level with the operand `e`
      and the tokens `t`, having allocated one node per tree node. */
  lemma {:induction false} ParsePrinted(e: Expr, l: nat, t: seq<Tok>)
    requires WellFormed(e) && l <= PRIMARY && Follow(l, t)
    ensures ParseAt(l, Print(e, l) + t) == Continue(l, e, t, Count(e))
    decreases e, 4
  {
    hide ParseAt, Loop, Suffix, ConcatTail, Plain, Count, WellFormed;
    if Level(e) < l {
      var close := [TRParen] + t;
      ParsePlainOr(e, close);
      assert Print(e, l) + t == [TLParen] + (Plain(e) + close);
      ParseParens(Plain(e) + close, e, t, Count(e));
      if l < PRIMARY {
        SuffixStops(e, t, Count(e));
        Lift(l, PRIMARY, Print(e, l) + t, e, t, Count(e));
      }
    } else {
      ParsePlainFrom(e, l, t);
    }
  }

  /** An unparenthesised expression inside brackets. */
  lemma {:induction false} ParsePlainOr(e: Expr, t: seq<Tok>)
    requires WellFormed(e) && !StartsSuffix(Head(t)) && BinOp(Head(t)).None?
    ensures ParseAt(OR, Plain(e) + t) == Got(e, t, Count(e))
    decreases e, 3
  {
    hide ParseAt, Loop, Suffix, ConcatTail, Plain, Count, WellFormed;
    ParsePlainFrom(e, OR, t);
    LoopStops(OR, e, t, Count(e));
  }

  /** An unparenthesised expression, read at its own level or any looser one. */
  lemma {:induction false} ParsePlainFrom(e: Expr, l: nat, t: seq<Tok>)
    requires WellFormed(e) && l <= Level(e) && Follow(l, t)
    ensures Level(e) <= PRIMARY && ParseAt(l, Plain(e) + t) == Continue(l, e, t, Count(e))
    decreases e, 2
  {
    hide ParseAt, Loop, Suffix, ConcatTail, Plain, Count, WellFormed;
    var m := Level(e);
    LevelBound(e);
    ParseOwn(e, t);
    if l < m {
      if LeftAssoc(m) {
        LoopStops(m, e, t, Count(e));
      } else if m == PRIMARY {
        SuffixStops(e, t, Count(e));
        PrimaryHead(e, t);
      }
      Lift(l, m, Plain(e) + t, e, t, Count(e));
    }
  }

  lemma LevelBound(e: Expr)
    ensures Level(e) <= PRIMARY
    ensures !LeftAssoc(Level(e)) && Level(e) != CONCAT && Level(e) != UNARY ==> Level(e) == PRIMARY
  {}

  lemma PlainBin(op: Op, a: Expr, b: Expr, t: seq<Tok>)
    requires op != Concat
    ensures Plain(Bin(op, a, b)) + t == Print(a, OpLevel(op)) + ([OpTok(op)] + (Print(b, OpLevel(op) + 1) + t))
    ensures Count(Bin(op, a, b)) == Count(a) + Count(b) + 1
  {
    hide Print, OpTok, OpLevel;
  }

  lemma PlainConcat(a: Expr, b: Expr, t: seq<Tok>)
    ensures Plain(Bin(Concat, a, b)) + t == Print(a, ADDSUB) + ([TDotDot] + (Print(b, CONCAT) + t))
    ensures Count(Bin(Concat, a, b)) == Count(a) + Count(b) + 1
  {
    hide Print;
  }

  lemma PlainUn(op: Op, x: Expr, t: seq<Tok>)
    ensures Plain(Un(op, x)) + t == [OpTok(op)] + (Print(x, UNARY) + t)
    ensures Count(Un(op, x)) == Count(x) + 1
  {
    hide Print;
  }

  lemma PlainIndex(base: Expr, key: Expr, t: seq<Tok>)
    ensures Plain(Index(base, key)) + t ==
            Print(base, PRIMARY) + ([TLBracket] + (Print(key, OR) + ([TRBracket] + t)))
    ensures Count(Index(base, key)) == Count(base) + Count(key) + 1
  {
    hide Print;
  }

  lemma PlainCall(f: Expr, args: Args, t: seq<Tok>)
    ensures Plain(Call(f, args)) + t == Print(f, PRIMARY) + ([TLParen] + (PrintArgs(args) + ([TRParen] + t)))
    ensures Count(Call(f, args)) == Count(f) + CountArgs(args) + 1
  {
    hide Print, PrintArgs;
  }

  /** An unparenthesised expression, read at its own level. */
  lemma {:induction false} ParseOwn(e: Expr, t: seq<Tok>)
    requires WellFormed(e) && (Level(e) == PRIMARY || Follow(Level(e), t))
    ensures Level(e) <= PRIMARY && ParseAt(Level(e), Plain(e) + t) == Continue(Level(e), e, t, Count(e))
    decreases e, 1
  {
    hide ParseAt, Loop, Suffix, ConcatTail, Print, Plain, Count, BinOp, PrintArgs, OpTok;
    LevelBound(e);
    match e
    case Bin(op, a, b) => if op == Concat { ParseConcat(a, b, t); } else { ParseBin(op, a, b, t); }
    case Un(op, x) =>
      ParsePrinted(x, UNARY, t);
      PlainUn(op, x, t);
      ParseUnary(op, Print(x, UNARY) + t);
    case Index(base, key) => ParseIndex(base, key, t);
    case Call(f, args) => ParseCall(f, args, t);
    case _ => ParseAtom(e, t);
  }

  lemma {:induction false} ParseIndex(base: Expr, key: Expr, t: seq<Tok>)
    requires WellFormed(base) && WellFormed(key)
    ensures ParseAt(PRIMARY, Plain(Index(base, key)) + t) == Suffix(Index(base, key), t, Count(Index(base, key)))
    decreases Index(base, key), 0
  {
    hide ParseAt, Loop, Suffix, ConcatTail, Print, Plain, Count;
    var close := [TRBracket] + t;
    var inner := Print(key, OR) + close;
    PlainIndex(base, key, t);
    ParsePrinted(key, OR, close);
    LoopStops(OR, key, close, Count(key));
    ParsePrinted(base, PRIMARY, [TLBracket] + inner);
    SuffixIndex(base, inner, key, t, Count(key), Count(base));
  }

  lemma {:induction false} ParseCall(f: Expr, args: Args, t: seq<Tok>)
    requires WellFormed(f) && WellFormedArgs(args)
    ensures ParseAt(PRIMARY, Plain(Call(f, args)) + t) == Suffix(Call(f, args), t, Count(Call(f, args)))
    decreases Call(f, args), 0
  {
    hide ParseAt, Loop, Suffix, ConcatTail, Print, Plain, Count, ParseArgs, PrintArgs;
    var inner := PrintArgs(args) + ([TRParen] + t);
    PlainCall(f, args, t);
    ParsePrintedArgs(args, t);
    ParsePrinted(f, PRIMARY, [TLParen] + inner);
    SuffixCall(f, inner, args, t, CountArgs(args), Count(f));
  }

  lemma {:induction false} ParseBin(op: Op, a: Expr, b: Expr, t: seq<Tok>)
    requires op != Not && op != Neg && op != Concat && WellFormed(a) && WellFormed(b)
    requires Follow(OpLevel(op), t)
    ensures LeftAssoc(OpLevel(op))
    ensures ParseAt(OpLevel(op), Plain(Bin(op, a, b)) + t) ==
            Loop(OpLevel(op), Bin(op, a, b), t, Count(Bin(op, a, b)))
    decreases Bin(op, a, b), 0
  {
    hide ParseAt, Loop, Suffix, ConcatTail, Print, Plain, Count, OpLevel, OpTok, Follow, LeftAssoc, OpAt, BinOp, WellFormed;
    var m := OpLevel(op);
    var right := Print(b, m + 1) + t;
    LoopTakes(op, a, right, Count(a));
    FollowOp(op, right, t);
    PlainBin(op, a, b, t);
    ParsePrinted(a, m, [OpTok(op)] + right);
    ParsePrinted(b, m + 1, t);
    if LeftAssoc(m + 1) {
      LoopStops(m + 1, b, t, Count(b));
    }
  }

  /** After an operand comes its own operator; what may follow the whole may follow the right
      operand, whose tighter level takes nothing of it. */
  lemma FollowOp(op: Op, right: seq<Tok>, t: seq<Tok>)
    requires op != Not && op != Neg && op != Concat && Follow(OpLevel(op), t)
    ensures LeftAssoc(OpLevel(op)) && OpLevel(op) < UNARY
    ensures Follow(OpLevel(op), [OpTok(op)] + right)
    ensures Follow(OpLevel(op) + 1, t)
    ensures LeftAssoc(OpLevel(op) + 1) ==> OpAt(OpLevel(op) + 1, t).None?
    ensures !LeftAssoc(OpLevel(op) + 1) ==> OpLevel(op) + 1 == CONCAT || OpLevel(op) + 1 == UNARY
  {}

  lemma {:induction false} ParseConcat(a: Expr, b: Expr, t: seq<Tok>)
    requires WellFormed(a) && WellFormed(b) && Follow(CONCAT, t)
    ensures ParseAt(CONCAT, Plain(Bin(Concat, a, b)) + t) ==
            Got(Bin(Concat, a, b), t, Count(Bin(Concat, a, b)))
    decreases Bin(Concat, a, b), 0
  {
    hide ParseAt, Loop, Suffix, ConcatTail, Print, Plain, Count, WellFormed;
    var right := Print(b, CONCAT) + t;
    var toks := [TDotDot] + right;
    PlainConcat(a, b, t);
    ParsePrinted(a, ADDSUB, toks);
    LoopStops(ADDSUB, a, toks, Count(a));
    ConcatLevel(Print(a, ADDSUB) + toks);
    ConcatStep(a, toks, Count(a));
    assert toks[1..] == right;
    ParsePrinted(b, CONCAT, t);
  }

  lemma {:induction false} ParsePrintedArgs(a: Args, t: seq<Tok>)
    requires WellFormedArgs(a)
    ensures ParseArgs(PrintArgs(a) + ([TRParen] + t)) == List(a, t, CountArgs(a))
    decreases a, 3
  {
    var close := [TRParen] + t;
    match a
    case NoArgs =>
      assert PrintArgs(a) + close == close && close[1..] == t;
    case Arg(e, rest) =>
      ParsePrintedMore(a, t);
      hide ParseMore, Print;
      PrintedStart(e, OR);
      assert Head(PrintArgs(a) + close) == Print(e, OR)[0];
  }

  /** A printed expression does not start with a closing parenthesis. */
  lemma {:induction false} PrintedStart(e: Expr, l: nat)
    ensures Print(e, l) != [] && Print(e, l)[0] != TRParen
    decreases e
  {
    match e
    case Bin(op, a, _) => PrintedStart(a, if op == Concat then ADDSUB else OpLevel(op));
    case Index(base, _) => PrintedStart(base, PRIMARY);
    case Call(f, _) => PrintedStart(f, PRIMARY);
    case _ =>
  }

  lemma {:induction false} ParsePrintedMore(a: Args, t: seq<Tok>)
    requires WellFormedArgs(a) && a.Arg?
    ensures ParseMore(PrintArgs(a) + ([TRParen] + t)) == List(a, t, CountArgs(a))
    decreases a, 2
  {
    hide ParseAt, Print, PrintArgs, Count, WellFormed, Loop, ParseMore;
    var close := [TRParen] + t;
    var Arg(e, rest) := a;
    PrintArgsStep(e, rest, close);
    if rest == NoArgs {
      ParsePrinted(e, OR, close);
      LoopStops(OR, e, close, Count(e));
      ArgsStep(Print(e, OR) + close);
      assert close[1..] == t;
    } else {
      var more := [TComma] + (PrintArgs(rest) + close);
      ParsePrinted(e, OR, more);
      LoopStops(OR, e, more, Count(e));
      ArgsStep(Print(e, OR) + more);
      ParsePrintedMore(rest, t);
      assert more[1..] == PrintArgs(rest) + close;
    }
  }

  lemma PrintArgsStep(e: Expr, rest: Args, close: seq<Tok>)
    ensures PrintArgs(Arg(e, rest)) + close ==
            if rest == NoArgs then Print(e, OR) + close
            else Print(e, OR) + ([TComma] + (PrintArgs(rest) + close))
  {
    hide Print;
  }

  /** A printed expression, followed by anything that cannot continue an expression, is read
      back as the same tree with exactly its tokens consumed. */
  lemma PrintThenParse(e: Expr, t: seq<Tok>)
    requires WellFormed(e) && !StartsSuffix(Head(t)) && BinOp(Head(t)).None?
    ensures ParseAt(OR, Print(e, OR) + t) == Got(e, t, Count(e))
  {
    hide ParseAt, Loop, Print;
    ParsePrinted(e, OR, t);
    LoopStops(OR, e, t, Count(e));
  }
}
