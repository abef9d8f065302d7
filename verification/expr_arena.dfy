/** The arena of expression nodes, linked by index, and reading trees back from it. */
module ExprArena {
  import opened Core
  import opened ExprGrammar

  const MAX_NODES: nat := 1024
  const NO_NODE: nat := 65535

  /** Arena nodes hold indices of other nodes; arguments are chained through `next`. */
  datatype Node =
    | NEmpty
    | NNum(v: int) | NFloat(d: real) | NStr(s: bytes) | NTrue | NFalse | NNil
    | NVar(name: bytes)
    | NBin(op: Op, l: nat, r: nat)
    | NUn(op: Op, x: nat)
    | NIndex(base: nat, key: nat)
    | NCall(f: nat, firstArg: nat)
    | NArg(e: nat)

  /** `TooComplex`: the arena is full. `Syntax`: the tokens are not an expression. */
  datatype Error = TooComplex | Syntax | NoRoomForName

  // ----- reading a tree back from the arena -----

  function AtomNode(e: Expr): Option<Node> {
    match e
    case Num(v) => Some(NNum(v))
    case Float(d) => Some(NFloat(d))
    case Str(s) => Some(NStr(s))
    case True => Some(NTrue)
    case False => Some(NFalse)
    case Nil => Some(NNil)
    case Var(n) => Some(NVar(n))
    case _ => None
  }

  /** Node `i` reads back as the tree `e`, through nodes from `lo` to `i` only. */
  ghost predicate Denotes(ns: seq<Node>, nx: seq<nat>, lo: nat, i: nat, e: Expr)
    decreases e
  {
    lo <= i < |ns| && |nx| == |ns| &&
    match e
    case Bin(op, l, r) =>
      ns[i].NBin? && ns[i].op == op && ns[i].l < i && ns[i].r < i &&
      Denotes(ns, nx, lo, ns[i].l, l) && Denotes(ns, nx, lo, ns[i].r, r)
    case Un(op, x) => ns[i].NUn? && ns[i].op == op && ns[i].x < i && Denotes(ns, nx, lo, ns[i].x, x)
    case Index(base, key) =>
      ns[i].NIndex? && ns[i].base < i && ns[i].key < i &&
      Denotes(ns, nx, lo, ns[i].base, base) && Denotes(ns, nx, lo, ns[i].key, key)
    case Call(f, args) =>
      ns[i].NCall? && ns[i].f < i && Denotes(ns, nx, lo, ns[i].f, f) &&
      DenotesArgs(ns, nx, lo, i, ns[i].firstArg, args)
    case _ => Some(ns[i]) == AtomNode(e)
  }

  /** The chain from `a` on, all of it below `bound`, reads back as the list `args`. */
  ghost predicate DenotesArgs(ns: seq<Node>, nx: seq<nat>, lo: nat, bound: nat, a: nat, args: Args)
    requires |nx| == |ns|
    decreases args
  {
    match args
    case NoArgs => a == NO_NODE
    case Arg(e, rest) =>
      lo <= a < bound && a < |ns| && ns[a].NArg? && ns[a].e < a && Denotes(ns, nx, lo, ns[a].e, e) &&
      DenotesArgs(ns, nx, lo, bound, nx[a], rest)
  }

  /** Two arenas with the same nodes and links from `lo` up to below `hi`. */
  ghost predicate Agree(ns: seq<Node>, nx: seq<nat>, ns': seq<Node>, nx': seq<nat>, lo: nat, hi: nat) {
    |nx| == |ns| && |nx'| == |ns'| && hi <= |ns| && hi <= |ns'| &&
    forall k :: lo <= k < hi ==> ns'[k] == ns[k] && nx'[k] == nx[k]
  }

  /** Reading back node `i` from `lo` looks at nothing outside; the link of `i` is not used. */
  lemma {:induction false} DenotesFrame(ns: seq<Node>, nx: seq<nat>, ns': seq<Node>, nx': seq<nat>,
                                        lo: nat, i: nat, e: Expr)
    requires Denotes(ns, nx, lo, i, e) && Agree(ns, nx, ns', nx', lo, i)
    requires i < |ns'| && ns'[i] == ns[i]
    ensures Denotes(ns', nx', lo, i, e)
    decreases e
  {
    match e
    case Bin(_, l, r) =>
      DenotesFrame(ns, nx, ns', nx', lo, ns[i].l, l);
      DenotesFrame(ns, nx, ns', nx', lo, ns[i].r, r);
    case Un(_, x) => DenotesFrame(ns, nx, ns', nx', lo, ns[i].x, x);
    case Index(base, key) =>
      DenotesFrame(ns, nx, ns', nx', lo, ns[i].base, base);
      DenotesFrame(ns, nx, ns', nx', lo, ns[i].key, key);
    case Call(f, args) =>
      DenotesFrame(ns, nx, ns', nx', lo, ns[i].f, f);
      DenotesArgsFrame(ns, nx, ns', nx', lo, i, ns[i].firstArg, args);
    case _ =>
  }

  lemma {:induction false} DenotesArgsFrame(ns: seq<Node>, nx: seq<nat>, ns': seq<Node>, nx': seq<nat>,
                                            lo: nat, bound: nat, a: nat, args: Args)
    requires Agree(ns, nx, ns', nx', lo, bound) && DenotesArgs(ns, nx, lo, bound, a, args)
    ensures DenotesArgs(ns', nx', lo, bound, a, args)
    decreases args
  {
    if args.Arg? {
      DenotesFrame(ns, nx, ns', nx', lo, ns[a].e, args.head);
      DenotesArgsFrame(ns, nx, ns', nx', lo, bound, nx[a], args.tail);
    }
  }

  /** A tree stays readable as the arena grows, and from any lower bound. */
  lemma {:induction false} DenotesGrown(ns: seq<Node>, nx: seq<nat>, ns': seq<Node>, nx': seq<nat>,
                                        lo: nat, lo': nat, i: nat, e: Expr)
    requires Denotes(ns, nx, lo, i, e) && ns <= ns' && nx <= nx' && |nx'| == |ns'| && lo' <= lo
    ensures Denotes(ns', nx', lo', i, e)
  {
    DenotesLength(ns, nx, lo, i, e);
    DenotesFrame(ns, nx, ns', nx', lo, i, e);
    DenotesLower(ns', nx', lo, lo', i, e);
  }

  lemma DenotesLength(ns: seq<Node>, nx: seq<nat>, lo: nat, i: nat, e: Expr)
    requires Denotes(ns, nx, lo, i, e)
    ensures lo <= i < |ns| == |nx|
  {}

  lemma {:induction false} DenotesLower(ns: seq<Node>, nx: seq<nat>, lo: nat, lo': nat, i: nat, e: Expr)
    requires Denotes(ns, nx, lo, i, e) && lo' <= lo
    ensures Denotes(ns, nx, lo', i, e)
    decreases e
  {
    match e
    case Bin(_, l, r) => DenotesLower(ns, nx, lo, lo', ns[i].l, l); DenotesLower(ns, nx, lo, lo', ns[i].r, r);
    case Un(_, x) => DenotesLower(ns, nx, lo, lo', ns[i].x, x);
    case Index(b, k) => DenotesLower(ns, nx, lo, lo', ns[i].base, b); DenotesLower(ns, nx, lo, lo', ns[i].key, k);
    case Call(f, args) =>
      DenotesLower(ns, nx, lo, lo', ns[i].f, f);
      DenotesArgsLower(ns, nx, lo, lo', i, ns[i].firstArg, args);
    case _ =>
  }

  lemma {:induction false} DenotesArgsLower(ns: seq<Node>, nx: seq<nat>, lo: nat, lo': nat, bound: nat, a: nat, args: Args)
    requires |nx| == |ns| && DenotesArgs(ns, nx, lo, bound, a, args) && lo' <= lo
    ensures DenotesArgs(ns, nx, lo', bound, a, args)
    decreases args
  {
    if args.Arg? {
      DenotesLower(ns, nx, lo, lo', ns[a].e, args.head);
      DenotesArgsLower(ns, nx, lo, lo', bound, nx[a], args.tail);
    }
  }

  // ----- chains of arguments -----

  function ListOnto(es: seq<Expr>, tail: Args): Args
    decreases |es|
  {
    if es == [] then tail else Arg(es[0], ListOnto(es[1..], tail))
  }

  lemma {:induction false} ListOntoSnoc(es: seq<Expr>, e: Expr, tail: Args)
    ensures ListOnto(es + [e], tail) == ListOnto(es, Arg(e, tail))
    decreases |es|
  {
    if es != [] {
      assert (es + [e])[1..] == es[1..] + [e];
      ListOntoSnoc(es[1..], e, tail);
    }
  }

  function Ahead(es: seq<Expr>, r: ParsedArgs, cost: nat): ParsedArgs {
    match r
    case NoList => NoList
    case List(args, rest, c) => List(ListOnto(es, args), rest, cost + c)
  }

  /** Argument nodes `ids`, in increasing order from `lo` on, linked one to the next. */
  ghost predicate Chain(ns: seq<Node>, nx: seq<nat>, lo: nat, ids: seq<nat>, es: seq<Expr>) {
    |nx| == |ns| && |ids| == |es| &&
    (forall j :: 0 <= j < |ids| ==> ChainLink(ns, nx, lo, ids, j, es[j])) &&
    (forall j, k :: 0 <= j < k < |ids| ==> ids[j] < ids[k])
  }

  ghost predicate ChainLink(ns: seq<Node>, nx: seq<nat>, lo: nat, ids: seq<nat>, j: nat, e: Expr)
    requires |nx| == |ns| && j < |ids|
  {
    lo <= ids[j] < |ns| && ns[ids[j]].NArg? && ns[ids[j]].e < ids[j] && Denotes(ns, nx, lo, ns[ids[j]].e, e) &&
    nx[ids[j]] == if j + 1 < |ids| then ids[j + 1] else NO_NODE
  }

  lemma {:induction false} ChainDenotes(ns: seq<Node>, nx: seq<nat>, lo: nat, ids: seq<nat>, es: seq<Expr>, k: nat)
    requires Chain(ns, nx, lo, ids, es) && k <= |ids|
    ensures DenotesArgs(ns, nx, lo, |ns|, if k == |ids| then NO_NODE else ids[k], ListOnto(es[k..], NoArgs))
    decreases |ids| - k
  {
    hide Denotes;
    if k < |ids| {
      assert ChainLink(ns, nx, lo, ids, k, es[k]);
      assert es[k..][1..] == es[k + 1..];
      ChainDenotes(ns, nx, lo, ids, es, k + 1);
    }
  }

  lemma ChainGrown(ns: seq<Node>, nx: seq<nat>, ns': seq<Node>, nx': seq<nat>, lo: nat, ids: seq<nat>, es: seq<Expr>)
    requires Chain(ns, nx, lo, ids, es) && ns <= ns' && nx <= nx' && |nx'| == |ns'|
    ensures Chain(ns', nx', lo, ids, es)
  {
    hide Denotes;
    forall j | 0 <= j < |ids| ensures ChainLink(ns', nx', lo, ids, j, es[j]) {
      assert ChainLink(ns, nx, lo, ids, j, es[j]);
      DenotesGrown(ns, nx, ns', nx', lo, lo, ns[ids[j]].e, es[j]);
    }
  }

  /** Appending the argument node just allocated, and linking the last one to it. The new
      argument's tree lies above the link being set. */
  lemma ChainSnoc(ns: seq<Node>, nx: seq<nat>, lo: nat, ids: seq<nat>, es: seq<Expr>, lo': nat, x: nat, e: Expr)
    requires Chain(ns, nx, lo, ids, es) && Denotes(ns, nx, lo', x, e)
    requires lo <= lo' && (ids != [] ==> ids[|ids| - 1] < lo')
    ensures var nx1 := if ids == [] then nx else nx[ids[|ids| - 1] := |ns|];
            Chain(ns + [NArg(x)], nx1 + [NO_NODE], lo, ids + [|ns|], es + [e])
  {
    hide Denotes;
    DenotesLength(ns, nx, lo', x, e);
    if ids != [] {
      assert ChainLink(ns, nx, lo, ids, |ids| - 1, es[|ids| - 1]);
    }
    var nx1 := if ids == [] then nx else nx[ids[|ids| - 1] := |ns|];
    var ns', nx', ids', es' := ns + [NArg(x)], nx1 + [NO_NODE], ids + [|ns|], es + [e];
    forall j | 0 <= j < |ids'| ensures ChainLink(ns', nx', lo, ids', j, es'[j]) {
      if j < |ids| {
        assert ChainLink(ns, nx, lo, ids, j, es[j]);
        assert ids[j] <= ids[|ids| - 1];
        DenotesFrame(ns, nx, ns', nx', lo, ns[ids[j]].e, es[j]);
      } else {
        DenotesFrame(ns, nx, ns', nx', lo', x, e);
        DenotesLower(ns', nx', lo', lo, x, e);
      }
    }
    forall j, k | 0 <= j < k < |ids'| ensures ids'[j] < ids'[k] {
      assert ChainLink(ns, nx, lo, ids, j, es[j]);
    }
  }

  // ----- new nodes -----

  lemma MakeAtom(ns: seq<Node>, nx: seq<nat>, n0: nat, e: Expr)
    requires AtomNode(e).Some? && n0 <= |ns| == |nx|
    ensures Denotes(ns + [AtomNode(e).value], nx + [NO_NODE], n0, |ns|, e)
  {}

  lemma MakeBin(ns: seq<Node>, nx: seq<nat>, n0: nat, op: Op, l: nat, r: nat, a: Expr, b: Expr)
    requires Denotes(ns, nx, n0, l, a) && Denotes(ns, nx, n0, r, b)
    ensures Denotes(ns + [NBin(op, l, r)], nx + [NO_NODE], n0, |ns|, Bin(op, a, b))
  {
    DenotesLength(ns, nx, n0, l, a);
    DenotesLength(ns, nx, n0, r, b);
    DenotesGrown(ns, nx, ns + [NBin(op, l, r)], nx + [NO_NODE], n0, n0, l, a);
    DenotesGrown(ns, nx, ns + [NBin(op, l, r)], nx + [NO_NODE], n0, n0, r, b);
  }

  lemma MakeUn(ns: seq<Node>, nx: seq<nat>, n0: nat, op: Op, x: nat, e: Expr)
    requires Denotes(ns, nx, n0, x, e)
    ensures Denotes(ns + [NUn(op, x)], nx + [NO_NODE], n0, |ns|, Un(op, e))
  {
    DenotesLength(ns, nx, n0, x, e);
    DenotesGrown(ns, nx, ns + [NUn(op, x)], nx + [NO_NODE], n0, n0, x, e);
  }

  lemma MakeIndex(ns: seq<Node>, nx: seq<nat>, n0: nat, b: nat, k: nat, e: Expr, key: Expr)
    requires Denotes(ns, nx, n0, b, e) && Denotes(ns, nx, n0, k, key)
    ensures Denotes(ns + [NIndex(b, k)], nx + [NO_NODE], n0, |ns|, Index(e, key))
  {
    DenotesLength(ns, nx, n0, b, e);
    DenotesLength(ns, nx, n0, k, key);
    DenotesGrown(ns, nx, ns + [NIndex(b, k)], nx + [NO_NODE], n0, n0, b, e);
    DenotesGrown(ns, nx, ns + [NIndex(b, k)], nx + [NO_NODE], n0, n0, k, key);
  }

  lemma MakeCall(ns: seq<Node>, nx: seq<nat>, n0: nat, f: nat, a: nat, e: Expr, args: Args)
    requires Denotes(ns, nx, n0, f, e) && DenotesArgs(ns, nx, n0, |ns|, a, args)
    ensures Denotes(ns + [NCall(f, a)], nx + [NO_NODE], n0, |ns|, Call(e, args))
  {
    DenotesLength(ns, nx, n0, f, e);
    DenotesGrown(ns, nx, ns + [NCall(f, a)], nx + [NO_NODE], n0, n0, f, e);
    DenotesArgsFrame(ns, nx, ns + [NCall(f, a)], nx + [NO_NODE], n0, |ns|, a, args);
  }

  /** A receiver put in front of an argument chain. */
  lemma MakeReceiver(ns: seq<Node>, nx: seq<nat>, n0: nat, x: nat, a: nat, e: Expr, args: Args)
    requires Denotes(ns, nx, n0, x, e) && DenotesArgs(ns, nx, n0, |ns|, a, args)
    ensures DenotesArgs(ns + [NArg(x)], nx + [a], n0, |ns| + 1, |ns|, Arg(e, args))
  {
    DenotesLength(ns, nx, n0, x, e);
    var ns', nx' := ns + [NArg(x)], nx + [a];
    DenotesGrown(ns, nx, ns', nx', n0, n0, x, e);
    DenotesArgsFrame(ns, nx, ns', nx', n0, |ns|, a, args);
    ArgsBound(ns', nx', n0, |ns|, |ns| + 1, a, args);
  }

  lemma {:induction false} ArgsBound(ns: seq<Node>, nx: seq<nat>, lo: nat, b: nat, b': nat, a: nat, args: Args)
    requires |nx| == |ns| && DenotesArgs(ns, nx, lo, b, a, args) && b <= b'
    ensures DenotesArgs(ns, nx, lo, b', a, args)
    decreases args
  {
    if args.Arg? {
      ArgsBound(ns, nx, lo, b, b', nx[a], args.tail);
    }
  }
}
