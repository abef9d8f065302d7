/** What `goto` and labels mean in a function body: blocks, the labels visible from a jump,
    and the label the parser's end-of-block resolution picks. */
module GotoSpec {
  import opened Core

  type Name = bytes

  /** A compound statement stands for its inner blocks, and `Other` for the nodes of expressions
      and statements themselves and the names they intern: a `while` is `Other` for its condition,
      a `Nested` and one more node; an `if` has `Other` for each condition, a `Nested` for each
      branch and its own nodes last. A block of a `for` statement declares control variables of
      its own; the blocks of loops allow `break`; a `local` statement declares locals. */
  datatype Stmt =
    | LabelStmt(name: Name)
    | GotoStmt(name: Name)
    | BreakStmt
    | Nested(body: seq<Stmt>, vars: nat, loop: bool)
    | Other(nodes: nat, names: seq<Name>, locals: nat)

  type Block = seq<Stmt>

  datatype LabelRec = LabelRec(name: Name, node: nat)

  /** A block around a jump: its own labels, and the node range its statements take up. */
  datatype Level = Level(labels: seq<LabelRec>, start: nat, end: nat)

  /** A jump with the blocks around it, outermost first. */
  datatype Jump = Jump(node: nat, name: Name, levels: seq<Level>)

  const MAX_SCOPES: nat := 16
  const MAX_LABELS: nat := 8
  const MAX_GOTOS: nat := 8
  const MAX_NODES: nat := 1024

  /** Locals the parser keeps track of, and one more than a `local` statement may declare. */
  const MAX_RESOLVED: nat := 64
  const MAX_LOCALS: nat := 16

  // ----- layout -----

  function Init(b: Block): Block
    requires b != []
  {
    b[..|b| - 1]
  }

  function Last(b: Block): Stmt
    requires b != []
  {
    b[|b| - 1]
  }

  function Size(b: Block): nat
    decreases b
  {
    if b == [] then 0 else Size(Init(b)) + StmtSize(Last(b))
  }

  function StmtSize(s: Stmt): nat
    decreases s
  {
    match s
    case LabelStmt(_) => 1
    case GotoStmt(_) => 1
    case BreakStmt => 1
    case Nested(b, _, _) => Size(b)
    case Other(n, _, _) => n
  }

  /** The names a block interns, in order. */
  function Names(b: Block): seq<Name>
    decreases b
  {
    if b == [] then [] else Names(Init(b)) + StmtNames(Last(b))
  }

  function StmtNames(s: Stmt): seq<Name>
    decreases s
  {
    match s
    case LabelStmt(name) => [name]
    case GotoStmt(name) => [name]
    case BreakStmt => []
    case Nested(b, _, _) => Names(b)
    case Other(_, names, _) => names
  }

  // ----- locals and loops -----

  /** The locals a block's own statements declare; those of inner blocks end with them. */
  function Locals(b: Block): nat {
    if b == [] then 0 else Locals(Init(b)) + StmtLocals(Last(b))
  }

  function StmtLocals(s: Stmt): nat {
    if s.Other? then s.locals else 0
  }

  /** With `n` locals declared already and `depth` loops around, the block never has more than 64
      at once, declares fewer than 16 in a statement, and breaks only out of loops. */
  ghost predicate Legal(b: Block, n: nat, depth: nat)
    decreases b
  {
    b == [] || (Legal(Init(b), n, depth) && StmtLegal(Last(b), n + Locals(Init(b)), depth))
  }

  ghost predicate StmtLegal(s: Stmt, n: nat, depth: nat)
    decreases s
  {
    match s
    case BreakStmt => depth > 0
    case Nested(b, vars, loop) => n + vars <= MAX_RESOLVED && Legal(b, n + vars, depth + if loop then 1 else 0)
    case Other(_, _, locals) => locals < MAX_LOCALS && n + locals <= MAX_RESOLVED
    case _ => true
  }

  /** What a block allows, it allows after each of its statements. */
  lemma {:induction false} LegalUpTo(b: Block, k: nat, n: nat, depth: nat)
    requires k < |b|
    ensures Locals(b[..k + 1]) == Locals(b[..k]) + StmtLocals(b[k])
    ensures Legal(b[..k + 1], n, depth) <==> Legal(b[..k], n, depth) && StmtLegal(b[k], n + Locals(b[..k]), depth)
    ensures Legal(b, n, depth) ==> Legal(b[..k + 1], n, depth)
  {
    hide StmtLocals, StmtLegal, Legal, Locals;
    LegalSnoc(b[..k + 1], n, depth);
    assert Init(b[..k + 1]) == b[..k] && Last(b[..k + 1]) == b[k];
    if k + 1 == |b| {
      assert b[..k + 1] == b;
    } else {
      LegalSnoc(b, n, depth);
      LegalUpTo(Init(b), k, n, depth);
      assert Init(b)[..k + 1] == b[..k + 1];
    }
  }

  lemma LegalSnoc(b: Block, n: nat, depth: nat)
    requires b != []
    ensures Locals(b) == Locals(Init(b)) + StmtLocals(Last(b))
    ensures Legal(b, n, depth) <==> Legal(Init(b), n, depth) && StmtLegal(Last(b), n + Locals(Init(b)), depth)
  {
    hide StmtLocals, StmtLegal;
  }

  lemma {:induction false} NamesUpTo(b: Block, k: nat) returns (rest: seq<Name>)
    requires k < |b|
    ensures Names(b[..k + 1]) == Names(b[..k]) + StmtNames(b[k])
    ensures Names(b) == Names(b[..k + 1]) + rest
  {
    hide Names, StmtNames;
    assert Init(b[..k + 1]) == b[..k] && Last(b[..k + 1]) == b[k];
    NamesSnoc(b[..k + 1]);
    if k + 1 == |b| {
      assert b[..k + 1] == b;
      rest := [];
    } else {
      rest := NamesUpTo(Init(b), k);
      assert Init(b)[..k + 1] == b[..k + 1] && Init(b)[..k] == b[..k];
      NamesSnoc(b);
      rest := rest + StmtNames(Last(b));
    }
  }

  lemma NamesSnoc(b: Block)
    ensures b != [] ==> Names(b) == Names(Init(b)) + StmtNames(Last(b))
    ensures b == [] ==> Names(b) == []
  {}

  /** The labels of a block itself, not of blocks inside it. */
  function Labels(b: Block, base: nat): seq<LabelRec>
    decreases b
  {
    if b == [] then [] else Labels(Init(b), base) + StmtLabels(Last(b), base + Size(Init(b)))
  }

  function StmtLabels(s: Stmt, node: nat): seq<LabelRec> {
    if s.LabelStmt? then [LabelRec(s.name, node)] else []
  }

  /** Every label, in inner blocks too. */
  function AllLabels(b: Block, base: nat): seq<LabelRec>
    decreases b
  {
    if b == [] then [] else AllLabels(Init(b), base) + StmtAllLabels(Last(b), base + Size(Init(b)))
  }

  function StmtAllLabels(s: Stmt, node: nat): seq<LabelRec>
    decreases s
  {
    match s
    case LabelStmt(name) => [LabelRec(name, node)]
    case Nested(b, _, _) => AllLabels(b, node)
    case _ => []
  }

  function LevelOf(b: Block, base: nat): Level {
    Level(Labels(b, base), base, base + Size(b))
  }

  /** The jumps of a block, in order; `levels` ends with the block's own level. */
  function Jumps(b: Block, base: nat, levels: seq<Level>): seq<Jump>
    decreases b, 0
  {
    if b == [] then [] else Jumps(Init(b), base, levels) + StmtJumps(Last(b), base + Size(Init(b)), levels)
  }

  function StmtJumps(s: Stmt, node: nat, levels: seq<Level>): seq<Jump>
    decreases s
  {
    match s
    case GotoStmt(name) => [Jump(node, name, levels)]
    case Nested(b, _, _) => BlockJumps(b, node, levels)
    case _ => []
  }

  function BlockJumps(b: Block, base: nat, outer: seq<Level>): seq<Jump>
    decreases b, 1
  {
    Jumps(b, base, outer + [LevelOf(b, base)])
  }

  /** A block one statement longer. */
  lemma {:induction false} Snoc(b: Block, s: Stmt, base: nat)
    ensures Size([]) == 0 && Labels([], base) == []
    ensures Size(b + [s]) == Size(b) + StmtSize(s)
    ensures Labels(b + [s], base) == Labels(b, base) + StmtLabels(s, base + Size(b))
  {
    hide StmtSize, StmtLabels;
    assert Init(b + [s]) == b;
  }

  lemma EmptyBlock(base: nat, levels: seq<Level>)
    ensures Size([]) == 0 && Labels([], base) == [] && AllLabels([], base) == [] && Jumps([], base, levels) == []
  {
  }

  lemma {:induction false} SnocAllLabels(b: Block, s: Stmt, base: nat)
    ensures AllLabels([], base) == []
    ensures AllLabels(b + [s], base) == AllLabels(b, base) + StmtAllLabels(s, base + Size(b))
  {
    hide StmtSize, StmtAllLabels;
    assert Init(b + [s]) == b;
  }

  lemma {:induction false} SnocJumps(b: Block, s: Stmt, base: nat, levels: seq<Level>)
    ensures Jumps([], base, levels) == []
    ensures Jumps(b + [s], base, levels) == Jumps(b, base, levels) + StmtJumps(s, base + Size(b), levels)
  {
    hide StmtSize, StmtJumps, Size;
    assert Init(b + [s]) == b;
  }

  /** What each statement adds to its block: labels and jumps are one node each and stand where the
      block has come to; a nested block brings its own nodes, and no labels to this block. */
  lemma StatementsMean(b: Block, x: Name, body: Block, vars: nat, loop: bool, n: nat, names: seq<Name>, k: nat, base: nat,
                       levels: seq<Level>)
    ensures Size(b + [LabelStmt(x)]) == Size(b) + 1 &&
            Labels(b + [LabelStmt(x)], base) == Labels(b, base) + [LabelRec(x, base + Size(b))] &&
            Jumps(b + [LabelStmt(x)], base, levels) == Jumps(b, base, levels)
    ensures Size(b + [GotoStmt(x)]) == Size(b) + 1 && Labels(b + [GotoStmt(x)], base) == Labels(b, base) &&
            Jumps(b + [GotoStmt(x)], base, levels) == Jumps(b, base, levels) + [Jump(base + Size(b), x, levels)]
    ensures Size(b + [Nested(body, vars, loop)]) == Size(b) + Size(body) &&
            Labels(b + [Nested(body, vars, loop)], base) == Labels(b, base) &&
            Jumps(b + [Nested(body, vars, loop)], base, levels) ==
            Jumps(b, base, levels) + BlockJumps(body, base + Size(b), levels)
    ensures Size(b + [Other(n, names, k)]) == Size(b) + n && Labels(b + [Other(n, names, k)], base) == Labels(b, base) &&
            Jumps(b + [Other(n, names, k)], base, levels) == Jumps(b, base, levels)
    ensures Size(b + [BreakStmt]) == Size(b) + 1
  {
    hide Size, Labels, Jumps, BlockJumps;
    Snoc(b, LabelStmt(x), base);
    Snoc(b, GotoStmt(x), base);
    Snoc(b, Nested(body, vars, loop), base);
    Snoc(b, Other(n, names, k), base);
    Snoc(b, BreakStmt, base);
    SnocJumps(b, LabelStmt(x), base, levels);
    SnocJumps(b, GotoStmt(x), base, levels);
    SnocJumps(b, Nested(body, vars, loop), base, levels);
    SnocJumps(b, Other(n, names, k), base, levels);
  }

  // ----- which label a jump gets -----

  function FirstOf(ls: seq<LabelRec>, name: Name): Option<nat> {
    if ls == [] then None
    else if ls[0].name == name then Some(ls[0].node)
    else FirstOf(ls[1..], name)
  }

  lemma {:induction false} FirstOfIn(ls: seq<LabelRec>, name: Name)
    ensures FirstOf(ls, name).Some? ==> LabelRec(name, FirstOf(ls, name).value) in ls
    ensures FirstOf(ls, name).None? <==> forall l :: l in ls ==> l.name != name
  {
    if ls != [] {
      FirstOfIn(ls[1..], name);
      assert ls[0] == LabelRec(ls[0].name, ls[0].node);
    }
  }

  /** Of several labels of a name in a block the first one counts. */
  lemma {:induction false} FirstOfIsFirst(ls: seq<LabelRec>, name: Name, i: nat)
    requires i < |ls| && ls[i].name == name && forall j :: 0 <= j < i ==> ls[j].name != name
    ensures FirstOf(ls, name) == Some(ls[i].node)
    decreases i
  {
    if i > 0 {
      assert ls[0].name != name;
      FirstOfIsFirst(ls[1..], name, i - 1);
    }
  }

  /** The labels recorded while fewer than `n` nodes existed. */
  function Before(ls: seq<LabelRec>, n: nat): (r: seq<LabelRec>)
    ensures forall l :: l in r <==> l in ls && l.node < n
  {
    if ls == [] then [] else
      var rest := Before(ls[1..], n);
      if ls[0].node < n then [ls[0]] + rest else rest
  }

  /** The innermost of the first `k` blocks with such a label. */
  function Innermost(levels: seq<Level>, k: nat, name: Name): (r: Option<nat>)
    requires k <= |levels|
    ensures r.Some? ==> r.value < k && FirstOf(levels[r.value].labels, name).Some?
    ensures forall i :: (if r.Some? then r.value + 1 else 0) <= i < k ==> FirstOf(levels[i].labels, name).None?
  {
    if k == 0 then None
    else if FirstOf(levels[k - 1].labels, name).Some? then Some(k - 1)
    else Innermost(levels, k - 1, name)
  }

  /** What is recorded of block `k` when the block around the jump inside it opens. */
  function Early(levels: seq<Level>, k: nat): seq<LabelRec>
    requires k + 1 < |levels|
  {
    Before(levels[k].labels, levels[k + 1].start)
  }

  /** The innermost of the first `k` blocks with such a label ahead of the jump's own part of it. */
  function InnermostEarly(levels: seq<Level>, k: nat, name: Name): (r: Option<nat>)
    requires k < |levels|
    ensures r.Some? ==> r.value < k && FirstOf(Early(levels, r.value), name).Some?
    ensures forall i :: (if r.Some? then r.value + 1 else 0) <= i < k ==> FirstOf(Early(levels, i), name).None?
  {
    if k == 0 then None
    else if FirstOf(Early(levels, k - 1), name).Some? then Some(k - 1)
    else InnermostEarly(levels, k - 1, name)
  }

  /** A jump goes to a label of its own block; failing that to one of the innermost enclosing
      block that has it ahead of the jump; failing that to one of the innermost enclosing block
      that has it at all. */
  function Choice(levels: seq<Level>, name: Name): Option<nat>
    requires levels != []
  {
    var own := |levels| - 1;
    if FirstOf(levels[own].labels, name).Some? then FirstOf(levels[own].labels, name)
    else
      match InnermostEarly(levels, own, name)
      case Some(k) => FirstOf(Early(levels, k), name)
      case None =>
        match Innermost(levels, own, name)
        case Some(k) => FirstOf(levels[k].labels, name)
        case None => None
  }

  predicate HasLabel(j: Jump) {
    exists k, l :: 0 <= k < |j.levels| && l in j.levels[k].labels && l.name == j.name
  }

  // ----- what is searched at the end of each block -----

  /** Scopes are searched from the innermost outward. */
  function Search(scopes: seq<seq<LabelRec>>, name: Name): Option<nat> {
    if scopes == [] then None
    else
      match FirstOf(scopes[|scopes| - 1], name)
      case Some(t) => Some(t)
      case None => Search(scopes[..|scopes| - 1], name)
  }

  function SeenAt(levels: seq<Level>, n: nat): seq<seq<LabelRec>> {
    seq(|levels|, k requires 0 <= k < |levels| => Before(levels[k].labels, n))
  }

  /** The search at the end of block `s`. */
  function Round(levels: seq<Level>, s: nat, name: Name): Option<nat>
    requires s < |levels|
  {
    Search(SeenAt(levels[..s + 1], levels[s].end), name)
  }

  /** The outcome of the searches at the ends of all blocks from the jump's own out to `s`. */
  function Rounds(levels: seq<Level>, s: nat, name: Name): Option<nat>
    decreases |levels| - s
  {
    if s >= |levels| then None
    else
      match Rounds(levels, s + 1, name)
      case Some(t) => Some(t)
      case None => Round(levels, s, name)
  }

  // ----- the two agree -----

  /** Blocks contain one another, and a label of a block is not inside the block within it. */
  ghost predicate WellNested(levels: seq<Level>) {
    (forall k, l :: 0 <= k < |levels| && l in levels[k].labels ==> levels[k].start <= l.node < levels[k].end) &&
    (forall k :: 0 <= k < |levels| ==> levels[k].start <= levels[k].end) &&
    (forall i, k :: 0 <= i < k < |levels| ==>
       levels[i].start <= levels[k].start && levels[k].end <= levels[i].end) &&
    (forall k, l :: 0 <= k < |levels| - 1 && l in levels[k].labels ==>
       l.node < levels[k + 1].start || levels[k + 1].end <= l.node)
  }

  lemma {:induction false} BeforeAgree(ls: seq<LabelRec>, m: nat, n: nat)
    requires forall l :: l in ls ==> (l.node < m <==> l.node < n)
    ensures Before(ls, m) == Before(ls, n)
  {
    if ls != [] {
      BeforeAgree(ls[1..], m, n);
    }
  }

  lemma {:induction false} BeforeAll(ls: seq<LabelRec>, n: nat)
    requires forall l :: l in ls ==> l.node < n
    ensures Before(ls, n) == ls
  {
    if ls != [] {
      BeforeAll(ls[1..], n);
      assert ls == [ls[0]] + ls[1..];
    }
  }

  /** The search at the end of the jump's own block. */
  lemma {:induction false} SearchEarly(levels: seq<Level>, k: nat, n: nat, name: Name)
    requires k < |levels|
    requires forall i :: 0 <= i < k ==> Before(levels[i].labels, n) == Early(levels, i)
    ensures Search(SeenAt(levels[..k], n), name) ==
            match InnermostEarly(levels, k, name) { case Some(i) => FirstOf(Early(levels, i), name) case None => None }
  {
    if k > 0 {
      var seen := SeenAt(levels[..k], n);
      assert seen[..k - 1] == SeenAt(levels[..k - 1], n);
      assert seen[k - 1] == Early(levels, k - 1);
      SearchEarly(levels, k - 1, n, name);
    }
  }

  /** When a block inside ends, an enclosing block has recorded what it had when it opened. */
  lemma EarlyAt(levels: seq<Level>, i: nat, r: nat)
    requires WellNested(levels) && i < r < |levels|
    ensures Before(levels[i].labels, levels[r].end) == Early(levels, i)
  {
    assert levels[i + 1].start <= levels[r].start && levels[r].end <= levels[i + 1].end;
    BeforeAgree(levels[i].labels, levels[r].end, levels[i + 1].start);
  }

  /** The search at the end of block `r`: its own labels, then what was ahead of it. */
  lemma RoundIs(levels: seq<Level>, r: nat, name: Name)
    requires r < |levels| && WellNested(levels)
    ensures Round(levels, r, name) ==
            if FirstOf(levels[r].labels, name).Some? then FirstOf(levels[r].labels, name)
            else match InnermostEarly(levels, r, name) { case Some(i) => FirstOf(Early(levels, i), name) case None => None }
  {
    hide FirstOf, Before, InnermostEarly;
    var n := levels[r].end;
    var seen := SeenAt(levels[..r + 1], n);
    BeforeAll(levels[r].labels, n);
    forall i | 0 <= i < r ensures Before(levels[i].labels, n) == Early(levels, i) {
      EarlyAt(levels, i, r);
    }
    SearchEarly(levels, r, n, name);
    assert seen[..r] == SeenAt(levels[..r], n);
  }

  lemma {:induction false} NoEarlyBelow(levels: seq<Level>, r: nat, k: nat, name: Name)
    requires r <= k < |levels| && InnermostEarly(levels, k, name).None?
    ensures InnermostEarly(levels, r, name).None?
    decreases k - r
  {
    if r < k {
      NoEarlyBelow(levels, r, k - 1, name);
    }
  }

  /** What the end-of-block searches pick is `Choice`. */
  lemma RoundsIsChoice(levels: seq<Level>, name: Name)
    requires levels != [] && WellNested(levels)
    ensures Rounds(levels, 0, name) == Choice(levels, name)
  {
    hide FirstOf, Before, InnermostEarly, Innermost, Round;
    var own := |levels| - 1;
    RoundIs(levels, own, name);
    assert Rounds(levels, own + 1, name).None?;
    if Round(levels, own, name).Some? {
      RoundsKeep(levels, own, name);
    } else {
      RoundsFrom(levels, own, name);
    }
  }

  lemma {:induction false} RoundsKeep(levels: seq<Level>, s: nat, name: Name)
    requires s <= |levels| && Rounds(levels, s, name).Some?
    ensures Rounds(levels, 0, name) == Rounds(levels, s, name)
  {
    if s > 0 {
      RoundsKeep(levels, s - 1, name);
    }
  }

  /** With nothing of that name ahead of the jump, the innermost enclosing block that has it decides. */
  lemma {:induction false} RoundsFrom(levels: seq<Level>, s: nat, name: Name)
    requires s < |levels| && WellNested(levels)
    requires InnermostEarly(levels, s, name).None? && Rounds(levels, s, name).None?
    ensures Rounds(levels, 0, name) ==
            match Innermost(levels, s, name) { case Some(k) => FirstOf(levels[k].labels, name) case None => None }
  {
    hide FirstOf, Before, Round, InnermostEarly, WellNested;
    if s > 0 {
      NoEarlyBelow(levels, s - 1, s, name);
      RoundIs(levels, s - 1, name);
      if Round(levels, s - 1, name).None? {
        RoundsFrom(levels, s - 1, name);
      } else {
        RoundsKeep(levels, s - 1, name);
      }
    }
  }

  /** A jump gets a label of its name from its own or an enclosing block, and none only when
      there is none. */
  lemma ChoiceIsLabel(levels: seq<Level>, name: Name)
    requires levels != []
    ensures Choice(levels, name).None? <==> forall k, l :: 0 <= k < |levels| && l in levels[k].labels ==> l.name != name
    ensures Choice(levels, name).Some? ==>
              exists k :: 0 <= k < |levels| && LabelRec(name, Choice(levels, name).value) in levels[k].labels
  {
    hide FirstOf, Before, InnermostEarly, Innermost;
    forall k | 0 <= k < |levels|
      ensures FirstOf(levels[k].labels, name).None? <==> forall l :: l in levels[k].labels ==> l.name != name
    {
      FirstOfIn(levels[k].labels, name);
    }
    var own := |levels| - 1;
    FirstOfIn(levels[own].labels, name);
    match InnermostEarly(levels, own, name)
    case Some(k) =>
      FirstOfIn(Early(levels, k), name);
      FirstOfIn(levels[k].labels, name);
    case None =>
      match Innermost(levels, own, name)
      case Some(k) => FirstOfIn(levels[k].labels, name);
      case None =>
  }

  /** The label picked is the innermost block's own exactly when no block further out has the
      name ahead of the jump, or the innermost block has it ahead too. */
  lemma InnermostIff(levels: seq<Level>, name: Name)
    requires levels != [] && Innermost(levels, |levels|, name).Some?
    requires WellNested(levels)
    ensures var k := Innermost(levels, |levels|, name).value;
            var own := |levels| - 1;
            (exists l :: l in levels[k].labels && Choice(levels, name) == Some(l.node)) <==>
            k == own || FirstOf(Early(levels, k), name).Some? || InnermostEarly(levels, k, name).None?
  {
    hide FirstOf, Before, InnermostEarly, Innermost, Choice;
    var own := |levels| - 1;
    var k := Innermost(levels, |levels|, name).value;
    FirstOfIn(levels[k].labels, name);
    ChoiceCases(levels, name);
    match InnermostEarly(levels, own, name)
    case Some(e) =>
      FirstOfIn(Early(levels, e), name);
      FirstOfIn(levels[e].labels, name);
      if k < own && e == k {
        assert FirstOf(Early(levels, k), name).Some?;
      }
      if e < k < own {
        EarlyBelow(levels, e, own, k, name);
      }
    case None => NoEarlyBelow(levels, k, own, name);
  }

  lemma {:induction false} EarlyBelow(levels: seq<Level>, e: nat, n: nat, k: nat, name: Name)
    requires e < k <= n < |levels| && InnermostEarly(levels, n, name) == Some(e)
    ensures InnermostEarly(levels, k, name) == Some(e)
    decreases n - k
  {
    hide FirstOf, Early;
    if k < n {
      EarlyBelow(levels, e, n - 1, k, name);
    }
  }

  lemma ChoiceCases(levels: seq<Level>, name: Name)
    requires levels != [] && Innermost(levels, |levels|, name).Some?
    ensures var own := |levels| - 1;
            var k := Innermost(levels, |levels|, name).value;
            Choice(levels, name) ==
            if k == own then FirstOf(levels[k].labels, name)
            else match InnermostEarly(levels, own, name)
              case Some(e) => FirstOf(Early(levels, e), name)
              case None => FirstOf(levels[k].labels, name)
  {
  }

  /** `repeat goto x until false`, the inner loop of the body below, and its end. */
  function InnerLoop(x: Name): Block {
    [Nested([GotoStmt(x)], 0, true), Other(2, [], 0)]
  }

  /** The body of the outer loop: a label behind the inner one. */
  function OuterLoop(x: Name): Block {
    InnerLoop(x) + [LabelStmt(x)]
  }

  /** `::x:: repeat repeat goto x until false ::x:: until false`. */
  function TwoLabels(x: Name): Block {
    [LabelStmt(x), Nested(OuterLoop(x), 0, true)] + [Other(2, [], 0)]
  }

  lemma InnerLoopLayout(x: Name, base: nat)
    ensures Size([GotoStmt(x)]) == 1 && Labels([GotoStmt(x)], base) == []
    ensures Size(InnerLoop(x)) == 3 && Labels(InnerLoop(x), base) == []
  {
    hide Size, Labels;
    var inner := Nested([GotoStmt(x)], 0, true);
    assert [GotoStmt(x)] == [] + [GotoStmt(x)] && [inner] == [] + [inner];
    assert InnerLoop(x) == [inner] + [Other(2, [], 0)];
    Snoc([], GotoStmt(x), base);
    Snoc([], inner, base);
    Snoc([inner], Other(2, [], 0), base);
  }

  lemma OuterLoopLayout(x: Name)
    ensures Size(OuterLoop(x)) == 4 && Labels(OuterLoop(x), 1) == [LabelRec(x, 4)]
    ensures Size(TwoLabels(x)) == 7 && Labels(TwoLabels(x), 0) == [LabelRec(x, 0)]
  {
    hide Size, Labels, InnerLoop;
    InnerLoopLayout(x, 1);
    Snoc(InnerLoop(x), LabelStmt(x), 1);
    var outer := Nested(OuterLoop(x), 0, true);
    assert [LabelStmt(x)] == [] + [LabelStmt(x)] && [LabelStmt(x), outer] == [LabelStmt(x)] + [outer];
    Snoc([], LabelStmt(x), 0);
    Snoc([LabelStmt(x)], outer, 0);
    Snoc([LabelStmt(x), outer], Other(2, [], 0), 0);
  }

  /** The one jump of a loop's body, seen from the blocks around. */
  lemma InnerLoopJumps(x: Name, levels: seq<Level>)
    ensures Jumps(InnerLoop(x), 1, levels) == [Jump(1, x, levels + [LevelOf([GotoStmt(x)], 1)])]
  {
    hide Size, Labels, Jumps;
    var inner := Nested([GotoStmt(x)], 0, true);
    var all := levels + [LevelOf([GotoStmt(x)], 1)];
    InnerLoopLayout(x, 1);
    assert [GotoStmt(x)] == [] + [GotoStmt(x)] && [inner] == [] + [inner];
    assert InnerLoop(x) == [inner] + [Other(2, [], 0)];
    EmptyBlock(1, levels);
    SnocJumps([], GotoStmt(x), 1, all);
    SnocJumps([], inner, 1, levels);
    SnocJumps([inner], Other(2, [], 0), 1, levels);
  }

  lemma OuterLoopJumps(x: Name, outer: seq<Level>)
    ensures Jumps(OuterLoop(x), 1, outer) == Jumps(InnerLoop(x), 1, outer)
    ensures Jumps(TwoLabels(x), 0, outer) == BlockJumps(OuterLoop(x), 1, outer)
  {
    hide Size, Jumps, BlockJumps, InnerLoop;
    InnerLoopLayout(x, 1);
    SnocJumps(InnerLoop(x), LabelStmt(x), 1, outer);
    var loop := Nested(OuterLoop(x), 0, true);
    assert [LabelStmt(x)] == [] + [LabelStmt(x)] && [LabelStmt(x), loop] == [LabelStmt(x)] + [loop];
    Snoc([], LabelStmt(x), 0);
    EmptyBlock(0, outer);
    SnocJumps([], LabelStmt(x), 0, outer);
    SnocJumps([LabelStmt(x)], loop, 0, outer);
    SnocJumps([LabelStmt(x), loop], Other(2, [], 0), 0, outer);
  }

  /** Enclosing blocks' labels are searched as recorded so far, so an outer label ahead of the
      jump wins over a nearer one that comes later. */
  lemma NotAlwaysInnermost(x: Name)
    ensures var js := BlockJumps(TwoLabels(x), 0, []);
            |js| == 1 && |js[0].levels| == 3 && Innermost(js[0].levels, 3, x) == Some(1) &&
            FirstOf(js[0].levels[1].labels, x) == Some(4) && Choice(js[0].levels, x) == Some(0)
  {
    hide Size, Labels, Jumps, Choice, Innermost, FirstOf, OuterLoop, TwoLabels;
    var outer := [LevelOf(TwoLabels(x), 0)];
    var both := outer + [LevelOf(OuterLoop(x), 1)];
    var levels := both + [LevelOf([GotoStmt(x)], 1)];
    OuterLoopLayout(x);
    InnerLoopLayout(x, 1);
    InnerLoopJumps(x, both);
    OuterLoopJumps(x, outer);
    OuterLoopJumps(x, both);
    assert [] + [LevelOf(TwoLabels(x), 0)] == outer;
    assert BlockJumps(TwoLabels(x), 0, []) == [Jump(1, x, levels)];
    NearerLabelLoses(levels, x);
  }

  lemma NearerLabelLoses(levels: seq<Level>, x: Name)
    requires |levels| == 3 && levels[2].labels == [] && levels[2].start == 1 && levels[1].start == 1
    requires levels[0].labels == [LabelRec(x, 0)] && levels[1].labels == [LabelRec(x, 4)]
    ensures Innermost(levels, 3, x) == Some(1) && FirstOf(levels[1].labels, x) == Some(4) && Choice(levels, x) == Some(0)
  {
    assert Innermost(levels, 2, x) == Some(1);
    assert Before(levels[1].labels[1..], 1) == [] && Before(levels[0].labels[1..], 1) == [];
    assert Early(levels, 1) == [];
    assert Early(levels, 0) == [LabelRec(x, 0)];
    assert InnermostEarly(levels, 1, x) == Some(0);
    assert InnermostEarly(levels, 2, x) == Some(0);
  }

  // ----- where labels and jumps lie -----

  lemma LabelSize(s: Stmt, node: nat)
    ensures forall l :: l in StmtLabels(s, node) ==> node <= l.node < node + StmtSize(s)
  {
  }

  lemma {:induction false} LabelsSplit(b: Block, k: nat, base: nat)
    requires k <= |b|
    ensures Size(b[..k]) <= Size(b) && Labels(b[..k], base) <= Labels(b, base)
    ensures forall i :: 0 <= i < |Labels(b[..k], base)| ==> base <= Labels(b, base)[i].node < base + Size(b[..k])
    ensures forall i :: |Labels(b[..k], base)| <= i < |Labels(b, base)| ==>
              base + Size(b[..k]) <= Labels(b, base)[i].node < base + Size(b)
    decreases |b|
  {
    hide StmtSize, Size, Labels, StmtLabels;
    EmptyBlock(base, []);
    if b == [] {
      assert b[..k] == b;
    } else {
      var n := |b| - 1;
      assert b == Init(b) + [Last(b)];
      Snoc(Init(b), Last(b), base);
      var j := if k == |b| then n else k;
      LabelsSplit(Init(b), j, base);
      assert Init(b)[..j] == b[..j] && Init(b)[..n] == Init(b);
      LabelSize(Last(b), base + Size(Init(b)));
      if k == |b| {
        assert b[..k] == b;
      }
    }
  }

  /** The labels recorded of a block after its first `k` statements. */
  lemma LabelsBefore(b: Block, k: nat, base: nat)
    requires k <= |b|
    ensures Before(Labels(b, base), base + Size(b[..k])) == Labels(b[..k], base)
  {
    hide Labels, Size, Before;
    LabelsSplit(b, k, base);
    BeforePrefix(Labels(b, base), |Labels(b[..k], base)|, base + Size(b[..k]));
  }

  lemma {:induction false} BeforePrefix(ls: seq<LabelRec>, k: nat, n: nat)
    requires k <= |ls|
    requires forall i :: 0 <= i < |ls| ==> (ls[i].node < n <==> i < k)
    ensures Before(ls, n) == ls[..k]
  {
    BeforeConcat(ls[..k], ls[k..], n);
    BeforeAll(ls[..k], n);
    BeforeNone(ls[k..], n);
    assert ls == ls[..k] + ls[k..];
  }

  lemma {:induction false} BeforeNone(ls: seq<LabelRec>, n: nat)
    requires forall i :: 0 <= i < |ls| ==> n <= ls[i].node
    ensures Before(ls, n) == []
  {
    if ls != [] {
      assert n <= ls[0].node;
      BeforeNone(ls[1..], n);
    }
  }

  lemma {:induction false} BeforeConcat(a: seq<LabelRec>, b: seq<LabelRec>, n: nat)
    ensures Before(a + b, n) == Before(a, n) + Before(b, n)
  {
    if a == [] {
      assert a + b == b;
    } else {
      assert (a + b)[1..] == a[1..] + b && (a + b)[0] == a[0];
      BeforeConcat(a[1..], b, n);
      var x, y := Before(a[1..], n), Before(b, n);
      assert [a[0]] + (x + y) == [a[0]] + x + y;
    }
  }

  lemma NestLevel(levels: seq<Level>, inner: Level)
    requires levels != [] && WellNested(levels)
    requires levels[|levels| - 1].start <= inner.start <= inner.end <= levels[|levels| - 1].end
    requires forall l :: l in inner.labels ==> inner.start <= l.node < inner.end
    requires forall l :: l in levels[|levels| - 1].labels ==> l.node < inner.start || inner.end <= l.node
    ensures WellNested(levels + [inner])
  {
    var last := levels[|levels| - 1];
    forall i | 0 <= i < |levels| ensures levels[i].start <= inner.start && inner.end <= levels[i].end {
      assert levels[i].start <= last.start && last.end <= levels[i].end;
    }
  }

  /** An inner block nests in the block it is a statement of. */
  lemma NestStep(b: Block, k: nat, base: nat, outer: seq<Level>)
    requires k < |b| && b[k].Nested? && WellNested(outer + [LevelOf(b, base)])
    ensures WellNested(outer + [LevelOf(b, base)] + [LevelOf(b[k].body, base + Size(b[..k]))])
  {
    hide Size, Labels, WellNested;
    var inner := LevelOf(b[k].body, base + Size(b[..k]));
    LabelsSplit(b, k, base);
    LabelsSplit(b, k + 1, base);
    Snoc(b[..k], b[k], base);
    assert b[..k + 1] == b[..k] + [b[k]];
    LabelsSplit(b[k].body, |b[k].body|, inner.start);
    assert b[k].body[..|b[k].body|] == b[k].body;
    NestLevel(outer + [LevelOf(b, base)], inner);
  }

  /** Jumps lie in their block, in order, inside the levels given. */
  ghost predicate JumpsIn(js: seq<Jump>, lo: nat, hi: nat, levels: seq<Level>) {
    (forall i :: 0 <= i < |js| ==> lo <= js[i].node < hi && levels <= js[i].levels && WellNested(js[i].levels)) &&
    (forall i, k :: 0 <= i < k < |js| ==> js[i].node < js[k].node)
  }

  lemma JumpsInConcat(a: seq<Jump>, c: seq<Jump>, lo: nat, mid: nat, hi: nat, levels: seq<Level>)
    requires lo <= mid <= hi && JumpsIn(a, lo, mid, levels) && JumpsIn(c, mid, hi, levels)
    ensures JumpsIn(a + c, lo, hi, levels)
  {
    hide WellNested;
  }

  lemma {:induction false} StmtsJumpsIn(b: Block, k: nat, base: nat, outer: seq<Level>)
    requires k <= |b| && WellNested(outer + [LevelOf(b, base)])
    ensures JumpsIn(Jumps(b[..k], base, outer + [LevelOf(b, base)]), base, base + Size(b[..k]), outer + [LevelOf(b, base)])
    decreases b, 0, k
  {
    hide WellNested, JumpsIn, StmtJumps, StmtSize, Jumps, Size, Labels;
    var levels := outer + [LevelOf(b, base)];
    if k == 0 {
      EmptyBlock(base, levels);
      assert b[..0] == [];
      NoJumpsIn(base, levels);
    } else {
      StmtsJumpsIn(b, k - 1, base, outer);
      assert b[..k] == b[..k - 1] + [b[k - 1]];
      SnocJumps(b[..k - 1], b[k - 1], base, levels);
      Snoc(b[..k - 1], b[k - 1], base);
      var node := base + Size(b[..k - 1]);
      StmtJumpsIn(b, k - 1, base, outer);
      JumpsInConcat(Jumps(b[..k - 1], base, levels), StmtJumps(b[k - 1], node, levels),
                    base, node, node + StmtSize(b[k - 1]), levels);
    }
  }

  lemma NoJumpsIn(base: nat, levels: seq<Level>)
    ensures JumpsIn([], base, base, levels)
  {
  }

  lemma {:induction false} StmtJumpsIn(b: Block, k: nat, base: nat, outer: seq<Level>)
    requires k < |b| && WellNested(outer + [LevelOf(b, base)])
    ensures var node := base + Size(b[..k]);
            var levels := outer + [LevelOf(b, base)];
            JumpsIn(StmtJumps(b[k], node, levels), node, node + StmtSize(b[k]), levels)
    decreases b, 0, k
  {
    hide WellNested, Jumps, Labels;
    var levels := outer + [LevelOf(b, base)];
    if b[k].Nested? {
      var inner := b[k].body;
      NestStep(b, k, base, outer);
      BlockJumpsIn(inner, base + Size(b[..k]), levels);
      assert levels <= levels + [LevelOf(inner, base + Size(b[..k]))];
    }
  }

  lemma {:induction false} BlockJumpsIn(b: Block, base: nat, outer: seq<Level>)
    requires WellNested(outer + [LevelOf(b, base)])
    ensures JumpsIn(BlockJumps(b, base, outer), base, base + Size(b), outer + [LevelOf(b, base)])
    decreases b, 1
  {
    hide WellNested, Jumps, Labels, JumpsIn;
    StmtsJumpsIn(b, |b|, base, outer);
    assert b[..|b|] == b;
  }
}
