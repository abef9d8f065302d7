/** The precedence-climbing parser: a token cursor and an arena of nodes. */
module ExprParser {
  import opened Core
  import opened ExprGrammar
  import opened ExprArena
  import opened Strings
  import ExprRoundTrip

  // ----- the parser -----

  ghost predicate DeliversArgs(p: Parser, goal: ParsedArgs, n0: nat, ns: seq<Node>, nx: seq<nat>, rest: seq<Tok>,
                               r: Result<nat, Error>) {
    |nx| == |ns| &&
    match r
    case Ok(a) =>
      goal.List? && rest == goal.rest && |ns| == n0 + goal.cost && DenotesArgs(ns, nx, n0, |ns|, a, goal.args)
    case Err(Syntax) => goal.NoList?
    case Err(TooComplex) => goal.NoList? || n0 + goal.cost > MAX_NODES
    case Err(NoRoomForName) => goal.NoList? || p.Over(|goal.rest|)
  }

  class Parser {
    const toks: seq<Tok>
    var pos: nat
    const nodes: array<Node>
    const next: array<nat>
    var used: nat
    /** The strings registered in the string arena, ahead of the parse and now. */
    const registered: seq<bytes>
    var names: seq<bytes>

    ghost predicate Valid()
      reads this, nodes, next
    {
      Named(pos, names) &&
      nodes.Length == MAX_NODES && next.Length == MAX_NODES && used <= MAX_NODES && pos <= |toks| &&
      forall k :: used <= k < MAX_NODES ==> next[k] == NO_NODE
    }

    /** The names of the first `k` tokens are registered too, and fit. */
    ghost predicate Named(k: nat, table: seq<bytes>) {
      k <= |toks| && table == AddAll(registered, NamesIn(toks[..k])) && CanHold(table)
    }

    ghost predicate OverAt(k: nat) {
      k <= |toks| && !CanHold(AddAll(registered, NamesIn(toks[..k])))
    }

    /** The names of the tokens up to the last `left` ones do not fit. */
    ghost predicate Over(left: int) {
      exists k: nat :: OverAt(k) && k + left <= |toks|
    }

    /** What does not fit when `sub` is read does not fit when more is. */
    lemma OverMore(sub: Parsed, goal: Parsed)
      requires sub.Got? && Over(|sub.rest|) && (goal.Got? ==> |goal.rest| <= |sub.rest|)
      ensures goal.Fail? || Over(|goal.rest|)
    {}

    ghost function Ns(): seq<Node>
      requires Valid()
      reads this, nodes, next
      ensures |Ns()| == used
    {
      nodes[..used]
    }

    ghost function Nx(): seq<nat>
      requires Valid()
      reads this, nodes, next
      ensures |Nx()| == used
    {
      next[..used]
    }

    ghost function Rest(): seq<Tok>
      requires Valid()
      reads this, nodes, next
      ensures |Rest()| == |toks| - pos
    {
      toks[pos..]
    }

    constructor (toks: seq<Tok>, registered: seq<bytes>)
      requires CanHold(registered)
      ensures Valid() && this.toks == toks && this.registered == registered && pos == 0 && used == 0
      ensures fresh(nodes) && fresh(next)
    {
      this.toks, pos, used := toks, 0, 0;
      this.registered, names := registered, registered;
      nodes := new Node[MAX_NODES](_ => NEmpty);
      next := new nat[MAX_NODES](_ => NO_NODE);
    }

    /** The lookahead token. */
    function Cur(): Tok
      requires Valid()
      reads this, nodes, next
      ensures Cur() == Head(Rest())
    {
      if pos < |toks| then toks[pos] else TEof
    }

    /** A token that is no name or string is left behind. */
    method Advance()
      requires Valid() && NameOf(Cur()) == []
      modifies `pos
      ensures Valid() && Ns() == old(Ns()) && Nx() == old(Nx())
      ensures pos == if old(pos) < |toks| then old(pos) + 1 else old(pos)
      ensures old(Rest()) != [] ==> Rest() == old(Rest())[1..]
      ensures old(Rest()) == [] ==> Rest() == []
    {
      hide NamesIn, AddAll, CanHold;
      if pos < |toks| {
        NamesStep(toks, pos);
        pos := pos + 1;
      }
    }

    /** A name or string is interned and left behind. */
    method TakeName() returns (ok: bool)
      requires Valid() && NameOf(Cur()) != []
      modifies `pos, `names
      ensures Valid() && Ns() == old(Ns()) && Nx() == old(Nx())
      ensures ok ==> pos == old(pos) + 1 && Rest() == old(Rest())[1..]
      ensures !ok ==> Over(|old(Rest())| - 1) && pos == old(pos)
    {
      hide NamesIn, AddAll, CanHold;
      var name := NameOf(toks[pos])[0];
      NamesStep(toks, pos);
      AddInTurn(registered, NamesIn(toks[..pos]), [name]);
      AddOne(names, name);
      var more := Added(names, name);
      if !CanHold(more) {
        assert OverAt(pos + 1);
        return false;
      }
      names, pos := more, pos + 1;
      return true;
    }

    /** What a parse that began with `before` nodes owes: the tree of the grammar, readable from the
        nodes from `n0` on, with exactly its tokens consumed and one node per unit of cost; a
        syntax error only where the grammar has none; a full arena only if it would overflow, and
        a full string arena only if the tokens' names overflow it. */
    ghost predicate Delivers(goal: Parsed, before: nat, n0: nat, r: Result<nat, Error>)
      requires Valid()
      reads this, nodes, next
    {
      match r
      case Ok(i) =>
        goal.Got? && Rest() == goal.rest && |Ns()| == before + goal.cost && Denotes(Ns(), Nx(), n0, i, goal.e)
      case Err(Syntax) => goal.Fail?
      case Err(TooComplex) => goal.Fail? || before + goal.cost > MAX_NODES
      case Err(NoRoomForName) => goal.Fail? || Over(|goal.rest|)
    }

    method Alloc(n: Node) returns (r: Result<nat, Error>)
      requires Valid()
      modifies `used, nodes
      ensures Valid()
      ensures r.Ok? ==> r.value == |old(Ns())| && Ns() == old(Ns()) + [n] && Nx() == old(Nx()) + [NO_NODE]
      ensures r.Err? ==> r.error == TooComplex && |old(Ns())| == MAX_NODES && Ns() == old(Ns()) && Nx() == old(Nx())
    {
      if used >= MAX_NODES {
        return Err(TooComplex);
      }
      nodes[used] := n;
      used := used + 1;
      return Ok(used - 1);
    }

    /** An operand of level `l` or tighter. */
    method ParseLevel(l: nat) returns (r: Result<nat, Error>)
      requires Valid() && l <= PRIMARY
      modifies this, nodes, next
      ensures Valid() && pos >= old(pos) && old(Ns()) <= Ns() && old(Nx()) <= Nx()
      ensures Delivers(ParseAt(l, old(Rest())), |old(Ns())|, |old(Ns())|, r)
      decreases |toks| - pos, 10 - l, 1
    {
      hide Named, OverAt, ParseAt, Denotes;
      if LeftAssoc(l) {
        r := ParseLeftAssoc(l);
      } else if l == CONCAT {
        r := ParseConcat();
      } else if l == UNARY {
        r := ParseUnary();
      } else {
        r := ParsePrimary();
      }
    }

    /** Another operand, with the tree `e` at `keep` still in place. */
    method ParseNext(l: nat, ghost keep: nat, ghost n0: nat, ghost e: Expr) returns (r: Result<nat, Error>)
      requires Valid() && l <= PRIMARY && Denotes(Ns(), Nx(), n0, keep, e)
      modifies this, nodes, next
      ensures Valid() && pos >= old(pos) && old(Ns()) <= Ns() && old(Nx()) <= Nx()
      ensures Denotes(Ns(), Nx(), n0, keep, e) && n0 <= |old(Ns())|
      ensures Delivers(ParseAt(l, old(Rest())), |old(Ns())|, n0, r)
      decreases |toks| - pos, 10 - l, 2
    {
      hide Named, OverAt, ParseAt, Denotes;
      ghost var ns, nx, goal := Ns(), Nx(), ParseAt(l, Rest());
      DenotesLength(ns, nx, n0, keep, e);
      r := ParseLevel(l);
      DenotesGrown(ns, nx, Ns(), Nx(), n0, n0, keep, e);
      if r.Ok? {
        DenotesLower(Ns(), Nx(), |ns|, n0, r.value, goal.e);
      }
    }

    method AllocBin(op: Op, l: nat, r: nat, ghost n0: nat, ghost a: Expr, ghost b: Expr) returns (x: Result<nat, Error>)
      requires Valid() && Denotes(Ns(), Nx(), n0, l, a) && Denotes(Ns(), Nx(), n0, r, b)
      modifies `used, nodes
      ensures Valid() && old(Ns()) <= Ns() && old(Nx()) <= Nx()
      ensures x.Ok? ==> |Ns()| == |old(Ns())| + 1 && Denotes(Ns(), Nx(), n0, x.value, Bin(op, a, b))
      ensures x.Err? ==> x.error == TooComplex && |old(Ns())| == MAX_NODES
    {
      hide Named, OverAt, Denotes;
      MakeBin(Ns(), Nx(), n0, op, l, r, a, b);
      x := Alloc(NBin(op, l, r));
    }

    method AllocIndex(b: nat, k: nat, ghost n0: nat, ghost e: Expr, ghost key: Expr) returns (x: Result<nat, Error>)
      requires Valid() && Denotes(Ns(), Nx(), n0, b, e) && Denotes(Ns(), Nx(), n0, k, key)
      modifies `used, nodes
      ensures Valid() && old(Ns()) <= Ns() && old(Nx()) <= Nx()
      ensures x.Ok? ==> |Ns()| == |old(Ns())| + 1 && Denotes(Ns(), Nx(), n0, x.value, Index(e, key))
      ensures x.Err? ==> x.error == TooComplex && |old(Ns())| == MAX_NODES
    {
      hide Named, OverAt, Denotes;
      MakeIndex(Ns(), Nx(), n0, b, k, e, key);
      x := Alloc(NIndex(b, k));
    }

    method AllocCall(f: nat, a: nat, ghost n0: nat, ghost e: Expr, ghost args: Args) returns (x: Result<nat, Error>)
      requires Valid() && |Nx()| == |Ns()|
      requires Denotes(Ns(), Nx(), n0, f, e) && DenotesArgs(Ns(), Nx(), n0, |Ns()|, a, args)
      modifies `used, nodes
      ensures Valid() && old(Ns()) <= Ns() && old(Nx()) <= Nx()
      ensures x.Ok? ==> |Ns()| == |old(Ns())| + 1 && Denotes(Ns(), Nx(), n0, x.value, Call(e, args))
      ensures x.Err? ==> x.error == TooComplex && |old(Ns())| == MAX_NODES
    {
      hide Named, OverAt, Denotes, DenotesArgs;
      MakeCall(Ns(), Nx(), n0, f, a, e, args);
      x := Alloc(NCall(f, a));
    }

    /** An argument list, with the tree `e` at `keep` still in place. */
    method ParseArgsNext(ghost keep: nat, ghost n0: nat, ghost e: Expr) returns (r: Result<nat, Error>)
      requires Valid() && Denotes(Ns(), Nx(), n0, keep, e)
      modifies this, nodes, next
      ensures Valid() && pos >= old(pos) && old(Ns()) <= Ns() && old(Nx()) <= Nx()
      ensures Denotes(Ns(), Nx(), n0, keep, e) && n0 <= |old(Ns())| && |Nx()| == |Ns()|
      ensures var goal := ParseArgs(old(Rest()));
              match r
              case Ok(a) =>
                goal.List? && Rest() == goal.rest && |Ns()| == |old(Ns())| + goal.cost &&
                DenotesArgs(Ns(), Nx(), n0, |Ns()|, a, goal.args)
              case Err(Syntax) => goal.NoList?
              case Err(TooComplex) => goal.NoList? || |old(Ns())| + goal.cost > MAX_NODES
              case Err(NoRoomForName) => goal.NoList? || Over(|goal.rest|)
      decreases |toks| - pos, 14, 0
    {
      hide Named, OverAt, ParseArgs, Denotes, DenotesArgs;
      ghost var ns, nx, goal := Ns(), Nx(), ParseArgs(Rest());
      DenotesLength(ns, nx, n0, keep, e);
      r := ParseArgList();
      DenotesGrown(ns, nx, Ns(), Nx(), n0, n0, keep, e);
      if r.Ok? {
        DenotesArgsLower(Ns(), Nx(), |ns|, n0, |Ns()|, r.value, goal.args);
      }
    }

    /** A binary operator and its right operand of level `l`, after the left operand `e`. */
    method ParseRight(op: Op, l: nat, left: nat, ghost n0: nat, ghost e: Expr) returns (r: Result<nat, Error>)
      requires Valid() && l <= PRIMARY && BinOp(Cur()).Some? && Denotes(Ns(), Nx(), n0, left, e)
      modifies this, nodes, next
      ensures Valid() && pos > old(pos) && old(Ns()) <= Ns() && old(Nx()) <= Nx()
      ensures n0 <= |old(Ns())|
      ensures var goal := ParseAt(l, old(Rest())[1..]);
              match r
              case Ok(i) =>
                goal.Got? && Rest() == goal.rest && |Ns()| == |old(Ns())| + goal.cost + 1 &&
                Denotes(Ns(), Nx(), n0, i, Bin(op, e, goal.e))
              case Err(Syntax) => goal.Fail?
              case Err(TooComplex) => goal.Fail? || |old(Ns())| + goal.cost + 1 > MAX_NODES
              case Err(NoRoomForName) => goal.Fail? || Over(|goal.rest|)
      decreases |toks| - pos, 0, 0
    {
      hide Named, OverAt, ParseAt, Denotes, Ns, Nx;
      Advance();
      ghost var sub := ParseAt(l, Rest());
      var right := ParseNext(l, left, n0, e);
      if right.Err? {
        return right;
      }
      r := AllocBin(op, left, right.value, n0, e, sub.e);
    }

    /** `or`, `and`, comparisons, `+ -` and `* / %`: a loop over operators of one level. */
    method ParseLeftAssoc(l: nat) returns (r: Result<nat, Error>)
      requires Valid() && LeftAssoc(l) && l < PRIMARY
      modifies this, nodes, next
      ensures Valid() && pos >= old(pos) && old(Ns()) <= Ns() && old(Nx()) <= Nx()
      ensures Delivers(ParseAt(l, old(Rest())), |old(Ns())|, |old(Ns())|, r)
      decreases |toks| - pos, 10 - l, 0
    {
      hide Named, Over, ParseAt, Loop, Denotes, LeftAssoc, BinOp, OpFor, Ns, Nx, Rest;
      ghost var goal, n0 := ParseAt(l, Rest()), |Ns()|;
      LoopLevel(l, Rest());
      ghost var first := ParseAt(l + 1, Rest());
      r := ParseLevel(l + 1);
      if r.Err? {
        if r.error == NoRoomForName && first.Got? {
          OverMore(first, goal);
        }
        return;
      }
      ghost var e := first.e;
      while OpFor(l, Cur()).Some?
        invariant Valid() && pos > old(pos) && r.Ok? && old(Ns()) <= Ns() && old(Nx()) <= Nx()
        invariant Denotes(Ns(), Nx(), n0, r.value, e)
        invariant |Ns()| >= n0 && goal == Loop(l, e, Rest(), |Ns()| - n0)
        decreases |toks| - pos
      {
        var op := OpFor(l, Cur()).value;
        LoopStep(l, e, Rest(), |Ns()| - n0);
        ghost var sub := ParseAt(l + 1, Rest()[1..]);
        r := ParseRight(op, l + 1, r.value, n0, e);
        if r.Err? {
          if r.error == NoRoomForName && sub.Got? {
            OverMore(sub, goal);
          }
          return;
        }
        e := Bin(op, e, sub.e);
      }
      LoopStep(l, e, Rest(), |Ns()| - n0);
    }

    /** `..` is right-associative. */
    method ParseConcat() returns (r: Result<nat, Error>)
      requires Valid()
      modifies this, nodes, next
      ensures Valid() && pos >= old(pos) && old(Ns()) <= Ns() && old(Nx()) <= Nx()
      ensures Delivers(ParseAt(CONCAT, old(Rest())), |old(Ns())|, |old(Ns())|, r)
      decreases |toks| - pos, 10 - CONCAT, 0
    {
      hide Named, Over, ParseAt, Loop, ConcatTail, Denotes, Ns, Nx, Rest;
      ghost var n0 := |Ns()|;
      ConcatLevel(Rest());
      ghost var first := ParseAt(ADDSUB, Rest());
      r := ParseLevel(ADDSUB);
      if r.Err? {
        if r.error == NoRoomForName && first.Got? {
          OverMore(first, ConcatTail(first.e, first.rest, first.cost));
        }
        return;
      }
      ConcatStep(first.e, Rest(), first.cost);
      if Cur() == TDotDot {
        r := ParseRight(Concat, CONCAT, r.value, n0, first.e);
      }
    }

    method ParseUnary() returns (r: Result<nat, Error>)
      requires Valid()
      modifies this, nodes, next
      ensures Valid() && pos >= old(pos) && old(Ns()) <= Ns() && old(Nx()) <= Nx()
      ensures Delivers(ParseAt(UNARY, old(Rest())), |old(Ns())|, |old(Ns())|, r)
      decreases |toks| - pos, 10 - UNARY, 0
    {
      hide Named, OverAt, ParseAt, Denotes;
      UnaryLevel(Rest());
      if Cur() == TNot || Cur() == TMinus {
        var op := if Cur() == TNot then Not else Neg;
        Advance();
        ghost var sub := ParseAt(UNARY, Rest());
        r := ParseLevel(UNARY);
        if r.Err? {
          return;
        }
        MakeUn(Ns(), Nx(), |old(Ns())|, op, r.value, sub.e);
        r := Alloc(NUn(op, r.value));
      } else {
        r := ParsePrimary();
      }
    }

    /** Literals, names and parenthesised expressions, then indexing and calls. */
    method ParsePrimary() returns (r: Result<nat, Error>)
      requires Valid()
      modifies this, nodes, next
      ensures Valid() && pos >= old(pos) && old(Ns()) <= Ns() && old(Nx()) <= Nx()
      ensures Delivers(ParseAt(PRIMARY, old(Rest())), |old(Ns())|, |old(Ns())|, r)
      decreases |toks| - pos, 10 - PRIMARY, 0
    {
      hide Named, Over, ParseAt, Suffix, Operand, Denotes, Ns, Nx, Rest;
      ghost var operand := Operand(Rest());
      PrimaryLevel(Rest());
      r := ParseOperand();
      if r.Ok? {
        r := ParseSuffixes(r.value, |old(Ns())|, operand.e);
      } else if r.error == NoRoomForName && operand.Got? {
        OverMore(operand, Suffix(operand.e, operand.rest, operand.cost));
      }
    }

    /** What the suffixes follow. */
    method ParseOperand() returns (r: Result<nat, Error>)
      requires Valid()
      modifies this, nodes, next
      ensures Valid() && pos >= old(pos) && old(Ns()) <= Ns() && old(Nx()) <= Nx()
      ensures r.Ok? ==> pos > old(pos)
      ensures Delivers(Operand(old(Rest())), |old(Ns())|, |old(Ns())|, r)
      decreases |toks| - pos, 0, 1
    {
      hide Named, Over, Operand, Denotes, Ns, Nx, Rest;
      if Cur() == TLParen {
        r := ParseParens();
      } else {
        r := ParseAtom();
      }
    }

    /** `(expr)`. */
    method ParseParens() returns (r: Result<nat, Error>)
      requires Valid() && Cur() == TLParen
      modifies this, nodes, next
      ensures Valid() && pos > old(pos) && old(Ns()) <= Ns() && old(Nx()) <= Nx()
      ensures Delivers(Operand(old(Rest())), |old(Ns())|, |old(Ns())|, r)
      decreases |toks| - pos, 0, 0
    {
      hide Named, OverAt, ParseAt, Denotes, Ns, Nx;
      Advance();
      r := ParseLevel(OR);
      if r.Err? {
        return;
      }
      if Cur() != TRParen {
        return Err(Syntax);
      }
      Advance();
    }

    /** A literal or a name. */
    method ParseAtom() returns (r: Result<nat, Error>)
      requires Valid() && Cur() != TLParen
      modifies this, nodes, next
      ensures Valid() && pos >= old(pos) && old(Ns()) <= Ns() && old(Nx()) <= Nx()
      ensures r.Ok? ==> pos > old(pos)
      ensures Delivers(Operand(old(Rest())), |old(Ns())|, |old(Ns())|, r)
      decreases |toks| - pos, 0, 0
    {
      hide Named, OverAt, Denotes, Ns, Nx;
      var atom := Atom(Cur());
      if atom.None? {
        return Err(Syntax);
      }
      MakeAtom(Ns(), Nx(), |Ns()|, atom.value);
      if Cur().TName? || Cur().TStr? {
        var ok := TakeName();
        if !ok {
          return Err(NoRoomForName);
        }
      } else {
        Advance();
      }
      r := Alloc(AtomNode(atom.value).value);
    }

    /** The suffix chain of `parse_primary`. */
    method ParseSuffixes(node0: nat, ghost n0: nat, ghost e0: Expr) returns (r: Result<nat, Error>)
      requires Valid() && n0 <= |Ns()| && Denotes(Ns(), Nx(), n0, node0, e0)
      modifies this, nodes, next
      ensures Valid() && pos >= old(pos) && old(Ns()) <= Ns() && old(Nx()) <= Nx()
      ensures Delivers(Suffix(e0, old(Rest()), |old(Ns())| - n0), n0, n0, r)
      decreases |toks| - pos, 20, 1
    {
      hide Named, Over, ParseAt, ParseArgs, Suffix, SuffixOnce, Denotes, DenotesArgs, Ns, Nx, Rest, StartsSuffix;
      ghost var goal := Suffix(e0, Rest(), |Ns()| - n0);
      ghost var e := e0;
      var node := node0;
      while StartsSuffix(Cur())
        invariant Valid() && pos >= old(pos) && old(Ns()) <= Ns() && old(Nx()) <= Nx()
        invariant Denotes(Ns(), Nx(), n0, node, e)
        invariant n0 <= |Ns()| && goal == Suffix(e, Rest(), |Ns()| - n0)
        decreases |toks| - pos
      {
        ghost var next := SuffixOnce(e, Rest());
        SuffixByOnce(e, Rest(), |Ns()| - n0);
        r := ParseSuffix(node, n0, e);
        if r.Err? {
          if r.error == NoRoomForName && next.Got? {
            OverMore(next, goal);
          }
          return;
        }
        node, e := r.value, next.e;
      }
      ExprRoundTrip.SuffixStops(e, Rest(), |Ns()| - n0);
      return Ok(node);
    }

    /** One suffix. */
    method ParseSuffix(node: nat, ghost n0: nat, ghost e: Expr) returns (r: Result<nat, Error>)
      requires Valid() && StartsSuffix(Cur()) && n0 <= |Ns()| && Denotes(Ns(), Nx(), n0, node, e)
      modifies this, nodes, next
      ensures Valid() && pos > old(pos) && old(Ns()) <= Ns() && old(Nx()) <= Nx()
      ensures Delivers(SuffixOnce(e, old(Rest())), |old(Ns())|, n0, r)
      decreases |toks| - pos, 20, 0
    {
      hide Named, OverAt, SuffixOnce, Denotes, Ns, Nx;
      if Cur() == TLBracket {
        r := BracketSuffix(node, n0, e);
      } else if Cur() == TLParen {
        r := CallSuffix(node, n0, e);
      } else {
        r := NamedSuffix(node, n0, e);
      }
    }

    /** `.name` and `:name(...)`. */
    method NamedSuffix(node: nat, ghost n0: nat, ghost e: Expr) returns (r: Result<nat, Error>)
      requires Valid() && (Cur() == TDot || Cur() == TColon) && n0 <= |Ns()| && Denotes(Ns(), Nx(), n0, node, e)
      modifies this, nodes, next
      ensures Valid() && pos > old(pos) && old(Ns()) <= Ns() && old(Nx()) <= Nx()
      ensures Delivers(SuffixOnce(e, old(Rest())), |old(Ns())|, n0, r)
      decreases |toks| - pos, 19, 0
    {
      hide Named, OverAt, ParseAt, ParseArgs, SuffixOnce, Denotes, DenotesArgs, Ns, Nx;
      SuffixNamed(e, Rest());
      var t := Cur();
      Advance();
      if !Cur().TName? {
        return Err(Syntax);
      }
      var name := Cur().name;
      var ok := TakeName();
      if !ok {
        return Err(NoRoomForName);
      }
      if t == TDot {
        r := IndexByName(node, name, n0, e);
      } else {
        r := MethodCall(node, name, n0, e);
      }
    }

    /** `[expr]`. */
    method BracketSuffix(node: nat, ghost n0: nat, ghost e: Expr) returns (r: Result<nat, Error>)
      requires Valid() && Cur() == TLBracket && n0 <= |Ns()| && Denotes(Ns(), Nx(), n0, node, e)
      modifies this, nodes, next
      ensures Valid() && pos > old(pos) && old(Ns()) <= Ns() && old(Nx()) <= Nx()
      ensures Delivers(SuffixOnce(e, old(Rest())), |old(Ns())|, n0, r)
      decreases |toks| - pos, 19, 0
    {
      hide Named, OverAt, ParseAt, ParseArgs, SuffixOnce, Denotes, DenotesArgs, Ns, Nx;
      SuffixBracket(e, Rest());
      Advance();
      ghost var sub := ParseAt(OR, Rest());
      r := ParseNext(OR, node, n0, e);
      if r.Err? {
        return;
      }
      if Cur() != TRBracket {
        return Err(Syntax);
      }
      Advance();
      r := AllocIndex(node, r.value, n0, e, sub.e);
    }

    /** `(args)`. */
    method CallSuffix(node: nat, ghost n0: nat, ghost e: Expr) returns (r: Result<nat, Error>)
      requires Valid() && Cur() == TLParen && n0 <= |Ns()| && Denotes(Ns(), Nx(), n0, node, e)
      modifies this, nodes, next
      ensures Valid() && pos > old(pos) && old(Ns()) <= Ns() && old(Nx()) <= Nx()
      ensures Delivers(SuffixOnce(e, old(Rest())), |old(Ns())|, n0, r)
      decreases |toks| - pos, 19, 0
    {
      hide Named, OverAt, ParseAt, ParseArgs, SuffixOnce, Denotes, DenotesArgs, Ns, Nx;
      SuffixCall(e, Rest());
      Advance();
      ghost var sub := ParseArgs(Rest());
      r := ParseArgsNext(node, n0, e);
      if r.Err? {
        return;
      }
      r := AllocCall(node, r.value, n0, e, sub.args);
    }

    /** `.name`: a string key and an index node. */
    method IndexByName(node: nat, name: bytes, ghost n0: nat, ghost e: Expr) returns (r: Result<nat, Error>)
      requires Valid() && Denotes(Ns(), Nx(), n0, node, e)
      modifies `used, nodes
      ensures Valid() && old(Ns()) <= Ns() && old(Nx()) <= Nx()
      ensures Denotes(Ns(), Nx(), n0, node, e)
      ensures r.Ok? ==> |Ns()| == |old(Ns())| + 2 && Denotes(Ns(), Nx(), n0, r.value, Index(e, Str(name)))
      ensures r.Err? ==> r.error == TooComplex && |old(Ns())| + 2 > MAX_NODES
    {
      hide Named, OverAt, Denotes;
      ghost var ns, nx := Ns(), Nx();
      DenotesLength(ns, nx, n0, node, e);
      MakeAtom(ns, nx, n0, Str(name));
      r := Alloc(NStr(name));
      if r.Err? {
        return;
      }
      DenotesGrown(ns, nx, Ns(), Nx(), n0, n0, node, e);
      r := AllocIndex(node, r.value, n0, e, Str(name));
      DenotesGrown(ns, nx, Ns(), Nx(), n0, n0, node, e);
    }

    /** `:name(...)`: the method is looked up on the receiver, which becomes the first argument. */
    method MethodCall(node: nat, name: bytes, ghost n0: nat, ghost e: Expr) returns (r: Result<nat, Error>)
      requires Valid() && Denotes(Ns(), Nx(), n0, node, e)
      modifies this, nodes, next
      ensures Valid() && pos >= old(pos) && old(Ns()) <= Ns() && old(Nx()) <= Nx()
      ensures var call := Head(old(Rest())) == TLParen;
              var sub := ParseArgs(if call then old(Rest())[1..] else []);
              match r
              case Ok(i) =>
                call && sub.List? && Rest() == sub.rest && |Ns()| == |old(Ns())| + sub.cost + 4 &&
                Denotes(Ns(), Nx(), n0, i, Call(Index(e, Str(name)), Arg(e, sub.args)))
              case Err(Syntax) => !call || sub.NoList?
              case Err(TooComplex) => !call || sub.NoList? || |old(Ns())| + sub.cost + 4 > MAX_NODES
              case Err(NoRoomForName) => !call || sub.NoList? || Over(|sub.rest|)
      decreases |toks| - pos, 15, 0
    {
      hide Named, OverAt, ParseArgs, Denotes, DenotesArgs, Ns, Nx;
      var fn := IndexByName(node, name, n0, e);
      if fn.Err? {
        return fn;
      }
      if Cur() != TLParen {
        return Err(Syntax);
      }
      Advance();
      ghost var sub, ns, nx := ParseArgs(Rest()), Ns(), Nx();
      var args := ParseArgsNext(node, n0, e);
      if args.Err? {
        return args;
      }
      DenotesGrown(ns, nx, Ns(), Nx(), n0, n0, fn.value, Index(e, Str(name)));
      r := AllocReceiver(node, args.value, fn.value, n0, e, sub.args, Index(e, Str(name)));
      if r.Err? {
        return;
      }
      r := AllocCall(fn.value, r.value, n0, Index(e, Str(name)), Arg(e, sub.args));
    }

    /** The receiver as an argument node in front of the chain `a`. */
    method AllocReceiver(node: nat, a: nat, ghost fn: nat, ghost n0: nat, ghost e: Expr, ghost args: Args, ghost f: Expr)
      returns (r: Result<nat, Error>)
      requires Valid() && |Nx()| == |Ns()|
      requires Denotes(Ns(), Nx(), n0, node, e) && Denotes(Ns(), Nx(), n0, fn, f)
      requires DenotesArgs(Ns(), Nx(), n0, |Ns()|, a, args)
      modifies `used, nodes, next
      ensures Valid() && old(Ns()) <= Ns() && old(Nx()) <= Nx()
      ensures r.Ok? ==> |Ns()| == |old(Ns())| + 1 && Denotes(Ns(), Nx(), n0, fn, f) && |Nx()| == |Ns()|
      ensures r.Ok? ==> DenotesArgs(Ns(), Nx(), n0, |Ns()|, r.value, Arg(e, args))
      ensures r.Err? ==> r.error == TooComplex && |old(Ns())| == MAX_NODES
    {
      hide Named, OverAt, Denotes, DenotesArgs;
      ghost var ns, nx := Ns(), Nx();
      MakeReceiver(ns, nx, n0, node, a, e, args);
      r := Alloc(NArg(node));
      if r.Err? {
        return;
      }
      if a != NO_NODE {
        next[r.value] := a;
      }
      assert Ns() == ns + [NArg(node)] && Nx() == nx + [a];
      DenotesGrown(ns, nx, Ns(), Nx(), n0, n0, fn, f);
    }

    /** `(expr, expr, ...)` after the parenthesis: argument nodes chained through `next`. */
    method ParseArgList() returns (r: Result<nat, Error>)
      requires Valid()
      modifies this, nodes, next
      ensures Valid() && pos >= old(pos) && old(Ns()) <= Ns() && old(Nx()) <= Nx()
      ensures DeliversArgs(this, ParseArgs(old(Rest())), |old(Ns())|, Ns(), Nx(), Rest(), r)
      decreases |toks| - pos, 13, 0
    {
      hide Named, OverAt, ParseArgs, ParseMore, Denotes, DenotesArgs, Chain, ListOnto, Ns, Nx;
      ArgsStep(Rest());
      if Cur() == TRParen {
        Advance();
        NoArgsChain(Ns(), Nx(), |Ns()|);
        return Ok(NO_NODE);
      }
      ghost var ids, es;
      r, ids, es := ParseArgChain();
      if r.Err? {
        return;
      }
      if Cur() != TRParen {
        return Err(Syntax);
      }
      ChainDenotes(Ns(), Nx(), |old(Ns())|, ids, es, 0);
      assert es[0..] == es;
      Advance();
    }

    /** Arguments up to the first token that is not a comma. */
    method ParseArgChain() returns (r: Result<nat, Error>, ghost ids: seq<nat>, ghost es: seq<Expr>)
      requires Valid()
      modifies this, nodes, next
      ensures Valid() && pos >= old(pos) && old(Ns()) <= Ns() && old(Nx()) <= Nx()
      ensures var goal, n0 := ParseMore(old(Rest())), |old(Ns())|;
              match r
              case Ok(first) =>
                Chain(Ns(), Nx(), n0, ids, es) && ids != [] && first == ids[0] &&
                goal == if Head(Rest()) == TRParen then List(ListOnto(es, NoArgs), Rest()[1..], |Ns()| - n0) else NoList
              case Err(Syntax) => goal.NoList?
              case Err(TooComplex) => goal.NoList? || n0 + goal.cost > MAX_NODES
              case Err(NoRoomForName) => goal.NoList? || Over(|goal.rest|)
      decreases |toks| - pos, 12, 1
    {
      hide Named, OverAt, ParseAt, ParseMore, Denotes, Chain, ListOnto, Ahead, Ns, Nx;
      ghost var goal, n0 := ParseMore(Rest()), |Ns()|;
      ids, es := [], [];
      var first, last := NO_NODE, NO_NODE;
      EmptyChain(Ns(), Nx(), n0);
      AheadNone(goal);
      while true
        invariant Valid() && pos >= old(pos) && old(Ns()) <= Ns() && old(Nx()) <= Nx()
        invariant Chain(Ns(), Nx(), n0, ids, es) && |ids| == |es|
        invariant first == (if ids == [] then NO_NODE else ids[0])
        invariant last == (if ids == [] then NO_NODE else ids[|ids| - 1]) && (ids != [] ==> last < MAX_NODES)
        invariant n0 <= |Ns()| && goal == Ahead(es, ParseMore(Rest()), |Ns()| - n0)
        decreases |toks| - pos
      {
        ArgIteration(es, Rest(), |Ns()| - n0);
        ghost var sub := ParseAt(OR, Rest());
        r := ParseArg(last, n0, ids, es);
        if r.Err? {
          return;
        }
        if last == NO_NODE {
          first := r.value;
        }
        last := r.value;
        ids, es := ids + [last], es + [sub.e];
        if Cur() != TComma {
          r := Ok(first);
          return;
        }
        Advance();
      }
    }

    /** One argument, linked behind the argument node `last`. */
    method ParseArg(last: nat, ghost n0: nat, ghost ids: seq<nat>, ghost es: seq<Expr>) returns (r: Result<nat, Error>)
      requires Valid() && n0 <= |Ns()| && Chain(Ns(), Nx(), n0, ids, es)
      requires last == if ids == [] then NO_NODE else ids[|ids| - 1]
      modifies this, nodes, next
      ensures Valid() && pos >= old(pos) && old(Ns()) <= Ns()
      ensures old(Nx()[..n0]) <= Nx()
      ensures var goal := ParseAt(OR, old(Rest()));
              match r
              case Ok(arg) =>
                goal.Got? && Rest() == goal.rest && |Ns()| == |old(Ns())| + goal.cost + 1 &&
                arg < MAX_NODES && Chain(Ns(), Nx(), n0, ids + [arg], es + [goal.e])
              case Err(Syntax) => goal.Fail?
              case Err(TooComplex) => goal.Fail? || |old(Ns())| + goal.cost + 1 > MAX_NODES
              case Err(NoRoomForName) => goal.Fail? || Over(|goal.rest|)
      decreases |toks| - pos, 12, 0
    {
      hide Named, OverAt, ParseAt, Denotes, Chain;
      ghost var goal, ns, nx := ParseAt(OR, Rest()), Ns(), Nx();
      ChainBounds(ns, nx, n0, ids, es);
      r := ParseLevel(OR);
      if r.Err? {
        return;
      }
      ghost var ns1, nx1 := Ns(), Nx();
      ChainGrown(ns, nx, ns1, nx1, n0, ids, es);
      ChainSnoc(ns1, nx1, n0, ids, es, |ns|, r.value, goal.e);
      r := Alloc(NArg(r.value));
      if r.Err? {
        return;
      }
      if last != NO_NODE {
        next[last] := r.value;
      }
      assert Nx() == (if ids == [] then nx1 else nx1[ids[|ids| - 1] := |ns1|]) + [NO_NODE];
    }
  }

  /** Printing an expression and parsing the tokens, followed by anything that cannot continue
      an expression, reads exactly those tokens and builds nodes that read back as the same
      tree. It fails only when the tree has more nodes than the arena, or names that the string
      arena cannot hold beside the registered ones. */
  method PrintAndParse(e: Expr, t: seq<Tok>, registered: seq<bytes>) returns (p: Parser, r: Result<nat, Error>)
    requires WellFormed(e) && !StartsSuffix(Head(t)) && BinOp(Head(t)).None? && CanHold(registered)
    ensures fresh(p) && p.Valid()
    ensures r.Ok? <==> Count(e) <= MAX_NODES && CanHold(AddAll(registered, NamesOf(e)))
    ensures r.Ok? ==> p.Rest() == t && Denotes(p.Ns(), p.Nx(), 0, r.value, e)
    ensures r.Ok? ==> p.names == AddAll(registered, NamesOf(e))
    ensures r.Err? ==> r.error == TooComplex || r.error == NoRoomForName
  {
    hide ParseAt, Print, Denotes, NamesOf, AddAll, CanHold, Parser.Named, Parser.Over;
    p := new Parser(Print(e, OR) + t, registered);
    assert p.Rest() == Print(e, OR) + t;
    ExprRoundTrip.PrintThenParse(e, t);
    r := p.ParseLevel(OR);
    if r.Ok? {
      NamesTaken(p, e, t);
    } else if r.error == NoRoomForName {
      NamesOver(p, e, t);
    }
  }

  lemma NamesTaken(p: Parser, e: Expr, t: seq<Tok>)
    requires p.toks == Print(e, OR) + t && p.Valid() && p.Rest() == t
    ensures p.names == AddAll(p.registered, NamesOf(e)) && CanHold(p.names)
  {
    hide Print, NamesIn, NamesOf, AddAll, CanHold;
    NamesPrinted(e, OR);
    assert p.toks[..p.pos] == Print(e, OR);
  }

  lemma NamesOver(p: Parser, e: Expr, t: seq<Tok>)
    requires p.toks == Print(e, OR) + t && p.Over(|t|)
    ensures !CanHold(AddAll(p.registered, NamesOf(e)))
  {
    hide Print, NamesIn, NamesOf, AddAll, CanHold;
    NamesPrinted(e, OR);
    var printed := Print(e, OR);
    var k: nat :| p.OverAt(k) && k <= |printed|;
    assert p.toks[..k] == printed[..k];
    if CanHold(AddAll(p.registered, NamesIn(printed))) {
      PrefixFits(p.registered, printed, k);
    }
  }

  lemma PrefixFits(registered: seq<bytes>, toks: seq<Tok>, k: nat)
    requires k <= |toks| && CanHold(AddAll(registered, NamesIn(toks)))
    ensures CanHold(AddAll(registered, NamesIn(toks[..k])))
  {
    hide CanHold, AddAll, NamesIn;
    assert toks == toks[..k] + toks[k..];
    NamesInConcat(toks[..k], toks[k..]);
    FewerFit(registered, NamesIn(toks[..k]), NamesIn(toks[k..]));
  }

  lemma NamesStep(toks: seq<Tok>, k: nat)
    requires k < |toks|
    ensures NamesIn(toks[..k + 1]) == NamesIn(toks[..k]) + NameOf(toks[k])
    ensures NameOf(toks[k]) == [] ==> NamesIn(toks[..k + 1]) == NamesIn(toks[..k])
  {
    assert toks[..k + 1][..k] == toks[..k];
  }

  lemma NoArgsChain(ns: seq<Node>, nx: seq<nat>, n0: nat)
    requires |nx| == |ns|
    ensures DenotesArgs(ns, nx, n0, |ns|, NO_NODE, NoArgs)
  {}

  lemma EmptyChain(ns: seq<Node>, nx: seq<nat>, n0: nat)
    requires |nx| == |ns|
    ensures Chain(ns, nx, n0, [], [])
  {}

  lemma ChainBounds(ns: seq<Node>, nx: seq<nat>, n0: nat, ids: seq<nat>, es: seq<Expr>)
    requires Chain(ns, nx, n0, ids, es)
    ensures |ids| == |es|
    ensures forall j :: 0 <= j < |ids| ==> n0 <= ids[j] < |ns|
  {
    forall j | 0 <= j < |ids| ensures n0 <= ids[j] < |ns| {
      assert ChainLink(ns, nx, n0, ids, j, es[j]);
    }
  }

  /** One more argument read, and what the remaining tokens give. */
  lemma ArgIteration(es: seq<Expr>, toks: seq<Tok>, cost: nat)
    ensures ParseAt(OR, toks).Fail? ==> Ahead(es, ParseMore(toks), cost) == NoList
    ensures ParseAt(OR, toks).Got? ==>
              var goal, sub := Ahead(es, ParseMore(toks), cost), ParseAt(OR, toks);
              (goal.List? ==> goal.cost >= cost + sub.cost + 1 && |goal.rest| <= |sub.rest|) &&
              goal ==
              if Head(sub.rest) == TComma then Ahead(es + [sub.e], ParseMore(sub.rest[1..]), cost + sub.cost + 1)
              else if Head(sub.rest) == TRParen then
                List(ListOnto(es + [sub.e], NoArgs), sub.rest[1..], cost + sub.cost + 1)
              else NoList
  {
    hide ParseAt, ParseMore, ListOnto;
    ArgsStep(toks);
    var sub := ParseAt(OR, toks);
    if sub.Got? {
      if Head(sub.rest) == TComma {
        var more := ParseMore(sub.rest[1..]);
        if more.List? {
          ListOntoSnoc(es, sub.e, more.args);
        }
      } else {
        ListOntoSnoc(es, sub.e, NoArgs);
      }
    }
  }

  lemma AheadNone(r: ParsedArgs)
    ensures Ahead([], r, 0) == r
  {}
}
