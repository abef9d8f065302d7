/** Expressions, their tokens, the grammar's precedence levels as a function from tokens to
    trees, and printing with as few parentheses as the levels allow. */
module ExprGrammar {
  import opened Core

  datatype Op =
    | Add | Sub | Mul | Div | Mod | Eq | Ne | Lt | Le | Gt | Ge
    | Concat | And | Or | Not | Neg

  datatype Expr =
    | Num(v: int) | Float(d: real) | Str(s: bytes) | True | False | Nil
    | Var(name: bytes)
    | Bin(op: Op, l: Expr, r: Expr)
    | Un(op: Op, x: Expr)
    | Index(base: Expr, key: Expr)
    | Call(f: Expr, args: Args)

  datatype Args = NoArgs | Arg(head: Expr, tail: Args)

  /** `TOther` stands for every token that neither starts nor continues an expression. */
  datatype Tok =
    | TNum(v: int) | TFloat(d: real) | TStr(s: bytes) | TTrue | TFalse | TNil
    | TName(name: bytes)
    | TOr | TAnd | TEqEq | TNeq | TLt | TLe | TGt | TGe
    | TDotDot | TPlus | TMinus | TStar | TSlash | TPercent | TNot
    | TLParen | TRParen | TLBracket | TRBracket | TComma | TDot | TColon
    | TOther | TEof

  // ----- levels -----

  const OR := 0
  const AND := 1
  const CMP := 2
  const CONCAT := 3
  const ADDSUB := 4
  const MULDIV := 5
  const UNARY := 6
  const PRIMARY := 7

  function OpLevel(op: Op): nat {
    match op
    case Or => OR
    case And => AND
    case Eq => CMP case Ne => CMP case Lt => CMP case Le => CMP case Gt => CMP case Ge => CMP
    case Concat => CONCAT
    case Add => ADDSUB case Sub => ADDSUB
    case Mul => MULDIV case Div => MULDIV case Mod => MULDIV
    case Not => UNARY case Neg => UNARY
  }

  /** The binary operator a token stands for. */
  function BinOp(t: Tok): (r: Option<Op>)
    ensures r.Some? ==> r.value != Not && r.value != Neg
  {
    match t
    case TOr => Some(Or)
    case TAnd => Some(And)
    case TEqEq => Some(Eq) case TNeq => Some(Ne) case TLt => Some(Lt)
    case TLe => Some(Le) case TGt => Some(Gt) case TGe => Some(Ge)
    case TDotDot => Some(Concat)
    case TPlus => Some(Add) case TMinus => Some(Sub)
    case TStar => Some(Mul) case TSlash => Some(Div) case TPercent => Some(Mod)
    case _ => None
  }

  function OpTok(op: Op): (t: Tok)
    ensures op != Not && op != Neg ==> BinOp(t) == Some(op)
  {
    match op
    case Or => TOr
    case And => TAnd
    case Eq => TEqEq case Ne => TNeq case Lt => TLt case Le => TLe case Gt => TGt case Ge => TGe
    case Concat => TDotDot
    case Add => TPlus case Sub => TMinus
    case Mul => TStar case Div => TSlash case Mod => TPercent
    case Not => TNot case Neg => TMinus
  }

  function Head(toks: seq<Tok>): Tok {
    if toks == [] then TEof else toks[0]
  }

  /** The binary operator of level `l` a token stands for, if any. */
  function OpFor(l: nat, t: Tok): (r: Option<Op>)
    ensures r.Some? ==> OpLevel(r.value) == l && BinOp(t) == r
  {
    var op := BinOp(t);
    if op.Some? && OpLevel(op.value) == l then op else None
  }

  /** The binary operator of level `l` at the head of the tokens, if any. */
  function OpAt(l: nat, toks: seq<Tok>): (r: Option<Op>)
    ensures r.Some? ==> toks != [] && OpLevel(r.value) == l && BinOp(toks[0]) == r
  {
    OpFor(l, Head(toks))
  }

  predicate LeftAssoc(l: nat) {
    l == OR || l == AND || l == CMP || l == ADDSUB || l == MULDIV
  }

  // ----- the grammar -----

  /** A tree, the tokens left over, and the number of arena nodes allocated on the way. */
  datatype Parsed = Fail | Got(e: Expr, rest: seq<Tok>, cost: nat)

  datatype ParsedArgs = NoList | List(args: Args, rest: seq<Tok>, cost: nat)

  function ParseAt(l: nat, toks: seq<Tok>): (r: Parsed)
    requires l <= PRIMARY
    ensures r.Got? ==> |r.rest| < |toks|
    decreases |toks|, 10 - l
  {
    if LeftAssoc(l) then
      match ParseAt(l + 1, toks)
      case Fail => Fail
      case Got(e, rest, cost) => Loop(l, e, rest, cost)
    else if l == CONCAT then
      match ParseAt(ADDSUB, toks)
      case Fail => Fail
      case Got(e, rest, cost) => ConcatTail(e, rest, cost)
    else if l == UNARY then
      if toks != [] && (toks[0] == TNot || toks[0] == TMinus) then
        match ParseAt(UNARY, toks[1..])
        case Fail => Fail
        case Got(x, rest, cost) => Got(Un(if toks[0] == TNot then Not else Neg, x), rest, cost + 1)
      else ParseAt(PRIMARY, toks)
    else
      if toks == [] then Fail
      else
        match toks[0]
        case TLParen =>
          (match ParseAt(OR, toks[1..])
           case Fail => Fail
           case Got(e, rest, cost) => if Head(rest) == TRParen then Suffix(e, rest[1..], cost) else Fail)
        case _ =>
          match Atom(toks[0])
          case None => Fail
          case Some(e) => Suffix(e, toks[1..], 1)
  }

  function Atom(t: Tok): Option<Expr> {
    match t
    case TNum(v) => Some(Num(v))
    case TFloat(r) => Some(Float(r))
    case TStr(s) => Some(Str(s))
    case TTrue => Some(True)
    case TFalse => Some(False)
    case TNil => Some(Nil)
    case TName(n) => Some(Var(n))
    case _ => None
  }

  /** Left-associative operators of level `l` after the operand `e`. */
  function Loop(l: nat, e: Expr, toks: seq<Tok>, cost: nat): (r: Parsed)
    requires LeftAssoc(l)
    ensures r.Got? ==> |r.rest| <= |toks| && r.cost >= cost
    decreases |toks|, 11
  {
    var op := OpAt(l, toks);
    if op.None? then Got(e, toks, cost)
    else
      match ParseAt(l + 1, toks[1..])
      case Fail => Fail
      case Got(r, rest, c) => Loop(l, Bin(op.value, e, r), rest, cost + c + 1)
  }

  function ConcatTail(e: Expr, toks: seq<Tok>, cost: nat): (r: Parsed)
    ensures r.Got? ==> |r.rest| <= |toks| && r.cost >= cost
    decreases |toks|, 11
  {
    if OpAt(CONCAT, toks).None? then Got(e, toks, cost)
    else
      match ParseAt(CONCAT, toks[1..])
      case Fail => Fail
      case Got(r, rest, c) => Got(Bin(Concat, e, r), rest, cost + c + 1)
  }

  /** Indexing and calls after the operand `e`. A method call passes its receiver first. */
  function Suffix(e: Expr, toks: seq<Tok>, cost: nat): (r: Parsed)
    ensures r.Got? ==> |r.rest| <= |toks| && r.cost >= cost
    decreases |toks|, 11
  {
    match Head(toks)
    case TDot =>
      if Head(toks[1..]).TName? then Suffix(Index(e, Str(toks[1].name)), toks[2..], cost + 2) else Fail
    case TColon =>
      if Head(toks[1..]).TName? && Head(toks[2..]) == TLParen then
        match ParseArgs(toks[3..])
        case NoList => Fail
        case List(args, rest, c) =>
          Suffix(Call(Index(e, Str(toks[1].name)), Arg(e, args)), rest, cost + c + 4)
      else Fail
    case TLBracket =>
      (match ParseAt(OR, toks[1..])
       case Fail => Fail
       case Got(k, rest, c) =>
         if Head(rest) == TRBracket then Suffix(Index(e, k), rest[1..], cost + c + 1) else Fail)
    case TLParen =>
      (match ParseArgs(toks[1..])
       case NoList => Fail
       case List(args, rest, c) => Suffix(Call(e, args), rest, cost + c + 1))
    case _ => Got(e, toks, cost)
  }

  /** An argument list after its opening parenthesis. */
  function ParseArgs(toks: seq<Tok>): (r: ParsedArgs)
    ensures r.List? ==> |r.rest| < |toks|
    decreases |toks|, 13
  {
    if Head(toks) == TRParen then List(NoArgs, toks[1..], 0) else ParseMore(toks)
  }

  function ParseMore(toks: seq<Tok>): (r: ParsedArgs)
    ensures r.List? ==> |r.rest| < |toks|
    decreases |toks|, 12
  {
    match ParseAt(OR, toks)
    case Fail => NoList
    case Got(e, rest, c) =>
      if Head(rest) == TComma then
        match ParseMore(rest[1..])
        case NoList => NoList
        case List(args, rest', c') => List(Arg(e, args), rest', c + c' + 1)
      else if Head(rest) == TRParen then List(Arg(e, NoArgs), rest[1..], c + 1)
      else NoList
  }

  // One level of the grammar each.

  lemma LoopLevel(l: nat, toks: seq<Tok>)
    requires LeftAssoc(l)
    ensures l < PRIMARY
    ensures ParseAt(l, toks) ==
            match ParseAt(l + 1, toks) case Fail => Fail case Got(e, rest, cost) => Loop(l, e, rest, cost)
  {
    hide Loop;
  }

  lemma ConcatLevel(toks: seq<Tok>)
    ensures ParseAt(CONCAT, toks) ==
            match ParseAt(ADDSUB, toks) case Fail => Fail case Got(e, rest, cost) => ConcatTail(e, rest, cost)
  {
    hide ConcatTail;
  }

  lemma UnaryLevel(toks: seq<Tok>)
    ensures ParseAt(UNARY, toks) ==
            if Head(toks) == TNot || Head(toks) == TMinus then
              match ParseAt(UNARY, toks[1..])
              case Fail => Fail
              case Got(x, rest, cost) => Got(Un(if Head(toks) == TNot then Not else Neg, x), rest, cost + 1)
            else ParseAt(PRIMARY, toks)
  {
    hide Suffix;
  }

  /** What the suffixes of a primary expression follow. */
  function Operand(toks: seq<Tok>): (r: Parsed)
    ensures r.Got? ==> |r.rest| < |toks|
  {
    if Head(toks) == TLParen then
      match ParseAt(OR, toks[1..])
      case Fail => Fail
      case Got(e, rest, cost) => if Head(rest) == TRParen then Got(e, rest[1..], cost) else Fail
    else if Atom(Head(toks)).Some? then Got(Atom(Head(toks)).value, toks[1..], 1)
    else Fail
  }

  lemma PrimaryLevel(toks: seq<Tok>)
    ensures ParseAt(PRIMARY, toks) ==
            match Operand(toks) case Fail => Fail case Got(e, rest, cost) => Suffix(e, rest, cost)
  {
    hide Suffix, Loop;
  }

  lemma LoopStep(l: nat, e: Expr, toks: seq<Tok>, cost: nat)
    requires LeftAssoc(l)
    ensures Loop(l, e, toks, cost) ==
            if OpAt(l, toks).None? then Got(e, toks, cost)
            else
              match ParseAt(l + 1, toks[1..])
              case Fail => Fail
              case Got(r, rest, c) => Loop(l, Bin(OpAt(l, toks).value, e, r), rest, cost + c + 1)
  {
    hide ParseAt, OpAt;
  }

  lemma ConcatStep(e: Expr, toks: seq<Tok>, cost: nat)
    ensures ConcatTail(e, toks, cost) ==
            if OpAt(CONCAT, toks).None? then Got(e, toks, cost)
            else
              match ParseAt(CONCAT, toks[1..])
              case Fail => Fail
              case Got(r, rest, c) => Got(Bin(Concat, e, r), rest, cost + c + 1)
  {
    hide ParseAt, OpAt;
  }

  lemma SuffixStep(e: Expr, toks: seq<Tok>, cost: nat)
    ensures Suffix(e, toks, cost) ==
            match Head(toks)
            case TDot =>
              if Head(toks[1..]).TName? then Suffix(Index(e, Str(Head(toks[1..]).name)), toks[1..][1..], cost + 2) else Fail
            case TColon =>
              if Head(toks[1..]).TName? && Head(toks[1..][1..]) == TLParen then
                match ParseArgs(toks[1..][1..][1..])
                case NoList => Fail
                case List(args, rest, c) =>
                  Suffix(Call(Index(e, Str(Head(toks[1..]).name)), Arg(e, args)), rest, cost + c + 4)
              else Fail
            case TLBracket =>
              (match ParseAt(OR, toks[1..])
               case Fail => Fail
               case Got(k, rest, c) =>
                 if Head(rest) == TRBracket then Suffix(Index(e, k), rest[1..], cost + c + 1) else Fail)
            case TLParen =>
              (match ParseArgs(toks[1..])
               case NoList => Fail
               case List(args, rest, c) => Suffix(Call(e, args), rest, cost + c + 1))
            case _ => Got(e, toks, cost)
  {
    hide ParseAt, ParseArgs;
    if Head(toks) == TDot && Head(toks[1..]).TName? {
      assert toks[1..][1..] == toks[2..];
    }
    if Head(toks) == TColon && Head(toks[1..]).TName? {
      assert toks[1..][1..] == toks[2..];
      if Head(toks[2..]) == TLParen {
        assert toks[2..][1..] == toks[3..];
      }
    }
  }

  predicate StartsSuffix(t: Tok) {
    t == TDot || t == TColon || t == TLBracket || t == TLParen
  }

  /** One suffix after `e`. */
  function SuffixOnce(e: Expr, toks: seq<Tok>): Parsed
    requires StartsSuffix(Head(toks))
  {
    match toks[0]
    case TDot =>
      if Head(toks[1..]).TName? then Got(Index(e, Str(Head(toks[1..]).name)), toks[1..][1..], 2) else Fail
    case TColon =>
      if Head(toks[1..]).TName? && Head(toks[1..][1..]) == TLParen then
        match ParseArgs(toks[1..][1..][1..])
        case NoList => Fail
        case List(args, rest, c) => Got(Call(Index(e, Str(Head(toks[1..]).name)), Arg(e, args)), rest, c + 4)
      else Fail
    case TLBracket =>
      (match ParseAt(OR, toks[1..])
       case Fail => Fail
       case Got(k, rest, c) => if Head(rest) == TRBracket then Got(Index(e, k), rest[1..], c + 1) else Fail)
    case TLParen =>
      match ParseArgs(toks[1..])
      case NoList => Fail
      case List(args, rest, c) => Got(Call(e, args), rest, c + 1)
  }

  lemma SuffixBracket(e: Expr, toks: seq<Tok>)
    requires Head(toks) == TLBracket
    ensures SuffixOnce(e, toks) ==
            match ParseAt(OR, toks[1..])
            case Fail => Fail
            case Got(k, rest, c) => if Head(rest) == TRBracket then Got(Index(e, k), rest[1..], c + 1) else Fail
  {
    hide ParseAt, ParseArgs;
  }

  lemma SuffixCall(e: Expr, toks: seq<Tok>)
    requires Head(toks) == TLParen
    ensures SuffixOnce(e, toks) ==
            match ParseArgs(toks[1..]) case NoList => Fail case List(args, rest, c) => Got(Call(e, args), rest, c + 1)
  {
    hide ParseAt, ParseArgs;
  }

  lemma SuffixNamed(e: Expr, toks: seq<Tok>)
    requires Head(toks) == TDot || Head(toks) == TColon
    ensures SuffixOnce(e, toks) ==
            if !Head(toks[1..]).TName? then Fail
            else
              var name, rest := Str(Head(toks[1..]).name), toks[1..][1..];
              if Head(toks) == TDot then Got(Index(e, name), rest, 2)
              else if Head(rest) != TLParen then Fail
              else
                match ParseArgs(rest[1..])
                case NoList => Fail
                case List(args, rest', c) => Got(Call(Index(e, name), Arg(e, args)), rest', c + 4)
  {
    hide ParseAt, ParseArgs;
  }

  lemma SuffixByOnce(e: Expr, toks: seq<Tok>, cost: nat)
    requires StartsSuffix(Head(toks))
    ensures Suffix(e, toks, cost) ==
            match SuffixOnce(e, toks)
            case Fail => Fail
            case Got(e', rest, c) => Suffix(e', rest, cost + c)
  {
    hide Suffix, ParseAt, ParseArgs;
    SuffixStep(e, toks, cost);
  }

  lemma ArgsStep(toks: seq<Tok>)
    ensures ParseArgs(toks) == if Head(toks) == TRParen then List(NoArgs, toks[1..], 0) else ParseMore(toks)
    ensures ParseMore(toks) ==
            match ParseAt(OR, toks)
            case Fail => NoList
            case Got(e, rest, c) =>
              if Head(rest) == TComma then
                match ParseMore(rest[1..])
                case NoList => NoList
                case List(args, rest', c') => List(Arg(e, args), rest', c + c' + 1)
              else if Head(rest) == TRParen then List(Arg(e, NoArgs), rest[1..], c + 1)
              else NoList
  {
    hide ParseAt;
  }

  // ----- printing -----

  function Level(e: Expr): nat {
    match e
    case Bin(op, _, _) => OpLevel(op)
    case Un(_, _) => UNARY
    case _ => PRIMARY
  }

  /** Binary and unary nodes carry operators of their arity. */
  predicate WellFormed(e: Expr) {
    match e
    case Bin(op, l, r) => op != Not && op != Neg && WellFormed(l) && WellFormed(r)
    case Un(op, x) => (op == Not || op == Neg) && WellFormed(x)
    case Index(base, key) => WellFormed(base) && WellFormed(key)
    case Call(f, args) => WellFormed(f) && WellFormedArgs(args)
    case _ => true
  }

  predicate WellFormedArgs(a: Args) {
    match a
    case NoArgs => true
    case Arg(e, rest) => WellFormed(e) && WellFormedArgs(rest)
  }

  /** `e` where an operand of level `l` is wanted. */
  function Print(e: Expr, l: nat): seq<Tok>
    decreases e, 1
  {
    if Level(e) < l then [TLParen] + Plain(e) + [TRParen] else Plain(e)
  }

  function Plain(e: Expr): seq<Tok>
    decreases e, 0
  {
    match e
    case Num(v) => [TNum(v)]
    case Float(r) => [TFloat(r)]
    case Str(s) => [TStr(s)]
    case True => [TTrue]
    case False => [TFalse]
    case Nil => [TNil]
    case Var(n) => [TName(n)]
    case Bin(op, l, r) =>
      if op == Concat then Print(l, ADDSUB) + ([OpTok(op)] + Print(r, CONCAT))
      else Print(l, OpLevel(op)) + ([OpTok(op)] + Print(r, OpLevel(op) + 1))
    case Un(op, x) => [OpTok(op)] + Print(x, UNARY)
    case Index(base, key) => Print(base, PRIMARY) + ([TLBracket] + Print(key, OR) + [TRBracket])
    case Call(f, args) => Print(f, PRIMARY) + ([TLParen] + PrintArgs(args) + [TRParen])
  }

  function PrintArgs(a: Args): seq<Tok> {
    match a
    case NoArgs => []
    case Arg(e, NoArgs) => Print(e, OR)
    case Arg(e, rest) => Print(e, OR) + [TComma] + PrintArgs(rest)
  }

  /** Arena nodes of a tree: one for every node, and one for every argument. */
  function Count(e: Expr): nat {
    match e
    case Bin(_, l, r) => Count(l) + Count(r) + 1
    case Un(_, x) => Count(x) + 1
    case Index(base, key) => Count(base) + Count(key) + 1
    case Call(f, args) => Count(f) + CountArgs(args) + 1
    case _ => 1
  }

  function CountArgs(a: Args): nat {
    match a
    case NoArgs => 0
    case Arg(e, rest) => Count(e) + CountArgs(rest) + 1
  }

  // ----- what is interned -----

  function NameOf(t: Tok): seq<bytes> {
    match t
    case TName(name) => [name]
    case TStr(s) => [s]
    case _ => []
  }

  function NamesIn(toks: seq<Tok>): seq<bytes> {
    if toks == [] then [] else NamesIn(toks[..|toks| - 1]) + NameOf(toks[|toks| - 1])
  }

  /** The names and strings of a tree, from left to right. */
  function NamesOf(e: Expr): seq<bytes> {
    match e
    case Str(s) => [s]
    case Var(name) => [name]
    case Bin(_, l, r) => NamesOf(l) + NamesOf(r)
    case Un(_, x) => NamesOf(x)
    case Index(base, key) => NamesOf(base) + NamesOf(key)
    case Call(f, args) => NamesOf(f) + NamesOfArgs(args)
    case _ => []
  }

  function NamesOfArgs(a: Args): seq<bytes> {
    match a
    case NoArgs => []
    case Arg(e, rest) => NamesOf(e) + NamesOfArgs(rest)
  }

  lemma {:induction false} NamesInConcat(a: seq<Tok>, b: seq<Tok>)
    ensures NamesIn(a + b) == NamesIn(a) + NamesIn(b)
  {
    hide NameOf;
    if b == [] {
      assert a + b == a;
    } else {
      var n := |b| - 1;
      assert (a + b)[..|a + b| - 1] == a + b[..n] && (a + b)[|a + b| - 1] == b[n];
      NamesInConcat(a, b[..n]);
      var x, y, z := NamesIn(a), NamesIn(b[..n]), NameOf(b[n]);
      assert x + (y + z) == x + y + z;
    }
  }

  lemma NamesInOne(t: Tok)
    ensures NamesIn([t]) == NameOf(t)
  {
    assert [t][..0] == [];
  }

  lemma NamesInAround(t: Tok, b: seq<Tok>, u: Tok)
    requires NameOf(t) == [] && NameOf(u) == []
    ensures NamesIn([t] + b) == NamesIn(b) && NamesIn([t] + b + [u]) == NamesIn(b)
  {
    NamesInOne(t);
    NamesInOne(u);
    NamesInConcat([t], b);
    NamesInConcat([t] + b, [u]);
  }

  /** The tokens printed carry the tree's names, in the tree's order. */
  lemma {:induction false} NamesPrinted(e: Expr, l: nat)
    ensures NamesIn(Print(e, l)) == NamesOf(e)
    decreases e, 1
  {
    hide Plain, NamesIn, NamesOf;
    NamesPlain(e);
    NamesInAround(TLParen, Plain(e), TRParen);
  }

  lemma {:induction false} NamesPlain(e: Expr)
    ensures NamesIn(Plain(e)) == NamesOf(e)
    decreases e, 0
  {
    hide Print, NamesIn;
    match e
    case Bin(op, a, b) =>
      var m, n := if op == Concat then ADDSUB else OpLevel(op), if op == Concat then CONCAT else OpLevel(op) + 1;
      NamesPrinted(a, m);
      NamesPrinted(b, n);
      NamesInAround(OpTok(op), Print(b, n), TRParen);
      NamesInConcat(Print(a, m), [OpTok(op)] + Print(b, n));
    case Un(op, x) =>
      NamesPrinted(x, UNARY);
      NamesInAround(OpTok(op), Print(x, UNARY), TRParen);
    case Index(base, key) =>
      NamesPrinted(base, PRIMARY);
      NamesPrinted(key, OR);
      NamesInAround(TLBracket, Print(key, OR), TRBracket);
      NamesInConcat(Print(base, PRIMARY), [TLBracket] + Print(key, OR) + [TRBracket]);
    case Call(f, args) =>
      NamesPrinted(f, PRIMARY);
      NamesPrintedArgs(args);
      NamesInAround(TLParen, PrintArgs(args), TRParen);
      NamesInConcat(Print(f, PRIMARY), [TLParen] + PrintArgs(args) + [TRParen]);
    case _ =>
      NamesInOne(Plain(e)[0]);
  }

  lemma {:induction false} NamesPrintedArgs(a: Args)
    ensures NamesIn(PrintArgs(a)) == NamesOfArgs(a)
    decreases a, 0
  {
    hide Print, NamesIn, NamesOf, NamesOfArgs;
    PrintArgsStep(a);
    if a.Arg? {
      NamesPrinted(a.head, OR);
      NamesPrintedArgs(a.tail);
      NamesInOne(TComma);
      NamesInConcat(Print(a.head, OR), [TComma]);
      NamesInConcat(Print(a.head, OR) + [TComma], PrintArgs(a.tail));
      assert NamesOf(a.head) + [] == NamesOf(a.head);
    }
  }

  lemma PrintArgsStep(a: Args)
    ensures a == NoArgs ==> PrintArgs(a) == [] && NamesIn([]) == [] && NamesOfArgs(a) == []
    ensures a.Arg? ==>
              NamesOfArgs(a) == NamesOf(a.head) + NamesOfArgs(a.tail) && (a.tail == NoArgs ==> NamesOfArgs(a.tail) == []) &&
              PrintArgs(a) ==
              if a.tail == NoArgs then Print(a.head, OR) else Print(a.head, OR) + [TComma] + PrintArgs(a.tail)
  {
    hide Print, NamesOf;
  }
}
