/** The parser's label and goto bookkeeping: scopes are pushed and popped with blocks, and each
    block's end patches the gotos whose label is known and defers the others outward. */
module GotoParser {
  import opened Core
  import opened GotoSpec
  import opened Strings

  datatype Node = LabelNode(name: Name) | GotoNode(target: nat) | OtherNode

  datatype Pending = Pending(node: nat, name: Name)

  datatype Scope = Scope(labels: seq<LabelRec>, gotos: seq<Pending>)

  datatype Failure = TooComplex | TooManyLabels | TooManyGotos | UnknownLabel | NoRoomForName | TooManyLocals | BreakOutsideLoop

  function OrZero(t: Option<nat>): nat {
    if t.Some? then t.value else 0
  }

  /** The jumps not resolved by the ends of blocks down to `s`. */
  function Left(js: seq<Jump>, s: nat): seq<Pending> {
    if js == [] then []
    else
      var j := js[|js| - 1];
      Left(js[..|js| - 1], s) + (if Rounds(j.levels, s, j.name).None? then [Pending(j.node, j.name)] else [])
  }

  /** Of some pending gotos, those the end of block `s` does not resolve. */
  function Unresolved(ps: seq<Pending>, levels: seq<Level>, s: nat): seq<Pending>
    requires s < |levels|
  {
    if ps == [] then []
    else
      var p := ps[|ps| - 1];
      Unresolved(ps[..|ps| - 1], levels, s) + (if Round(levels, s, p.name).None? then [p] else [])
  }

  predicate Holds(nodes: seq<Node>, n: nat, x: Node) {
    n < |nodes| && nodes[n] == x
  }

  ghost predicate IsPending(ps: seq<Pending>, n: nat) {
    exists p :: 0 <= p < |ps| && ps[p].node == n
  }

  ghost predicate IsJump(js: seq<Jump>, n: nat) {
    exists i :: 0 <= i < |js| && js[i].node == n
  }

  /** Every goto node holds what the searches so far found. */
  ghost predicate Bound(nodes: seq<Node>, js: seq<Jump>, s: nat) {
    forall i :: 0 <= i < |js| ==> Holds(nodes, js[i].node, GotoNode(OrZero(Rounds(js[i].levels, s, js[i].name))))
  }

  ghost predicate Marked(nodes: seq<Node>, ls: seq<LabelRec>) {
    forall i :: 0 <= i < |ls| ==> Holds(nodes, ls[i].node, LabelNode(ls[i].name))
  }

  ghost predicate Seen(scopes: seq<Scope>, levels: seq<Level>, n: nat) {
    |scopes| == |levels| && forall i :: 0 <= i < |scopes| ==> scopes[i].labels == Before(levels[i].labels, n)
  }

  // ----- capacities -----

  /** Blocks at most 16 deep, at most 8 labels in a block, and at most 8 gotos waiting for a
      label in a block at any time. */
  ghost predicate Within(b: Block, base: nat, outer: seq<Level>)
    decreases b, 1
  {
    var levels := outer + [LevelOf(b, base)];
    |outer| < MAX_SCOPES && |Labels(b, base)| <= MAX_LABELS &&
    |Left(Jumps(b, base, levels), |levels|)| <= MAX_GOTOS && StmtsWithin(b, base, levels)
  }

  ghost predicate StmtsWithin(b: Block, base: nat, levels: seq<Level>)
    decreases b, 0
  {
    b == [] || (StmtsWithin(Init(b), base, levels) && StmtWithin(Last(b), base + Size(Init(b)), levels))
  }

  ghost predicate StmtWithin(s: Stmt, node: nat, levels: seq<Level>)
    decreases s
  {
    s.Nested? ==> Within(s.body, node, levels)
  }

  lemma {:induction false} LeftConcat(a: seq<Jump>, c: seq<Jump>, s: nat)
    ensures Left(a + c, s) == Left(a, s) + Left(c, s)
  {
    hide Rounds;
    if c == [] {
      assert a + c == a;
    } else {
      assert (a + c)[..|a + c| - 1] == a + c[..|c| - 1];
      LeftConcat(a, c[..|c| - 1], s);
    }
  }

  /** What a prefix of a block uses, the block uses. */
  lemma {:induction false} PrefixUses(b: Block, k: nat, base: nat, levels: seq<Level>, s: nat)
    requires k <= |b|
    ensures Size(b[..k]) <= Size(b) && |Labels(b[..k], base)| <= |Labels(b, base)|
    ensures |Left(Jumps(b[..k], base, levels), s)| <= |Left(Jumps(b, base, levels), s)|
    ensures StmtsWithin(b, base, levels) ==> StmtsWithin(b[..k], base, levels)
    decreases |b|
  {
    hide Left;
    if k == |b| {
      assert b[..k] == b;
    } else {
      var n := |b| - 1;
      assert b == b[..n] + [b[n]] && b[..n][..k] == b[..k];
      PrefixUses(b[..n], k, base, levels, s);
      Snoc(b[..n], b[n], base);
      SnocJumps(b[..n], b[n], base, levels);
      LeftConcat(Jumps(b[..n], base, levels), StmtJumps(b[n], base + Size(b[..n]), levels), s);
    }
  }

  lemma {:induction false} UnresolvedPrefix(ps: seq<Pending>, k: nat, levels: seq<Level>, s: nat)
    requires k <= |ps| && s < |levels|
    ensures |Unresolved(ps[..k], levels, s)| <= |Unresolved(ps, levels, s)|
    decreases |ps|
  {
    hide Round;
    if k == |ps| {
      assert ps[..k] == ps;
    } else {
      assert ps[..|ps| - 1][..k] == ps[..k];
      UnresolvedPrefix(ps[..|ps| - 1], k, levels, s);
    }
  }

  // ----- one block end -----

  lemma RoundOfPrefix(levels: seq<Level>, more: seq<Level>, s: nat, name: Name)
    requires s < |levels| && levels <= more
    ensures Round(more, s, name) == Round(levels, s, name)
  {
    assert more[..s + 1] == levels[..s + 1];
  }

  /** The end of block `s` leaves of the pending gotos the ones still without a label. */
  lemma {:induction false} LeftStep(js: seq<Jump>, levels: seq<Level>, s: nat)
    requires |levels| == s + 1 && forall i :: 0 <= i < |js| ==> levels <= js[i].levels
    ensures Left(js, s) == Unresolved(Left(js, s + 1), levels, s)
  {
    hide Round;
    if js != [] {
      var n := |js| - 1;
      var j := js[n];
      LeftStep(js[..n], levels, s);
      RoundOfPrefix(levels, j.levels, s, j.name);
      var l, p := Left(js[..n], s + 1), Pending(j.node, j.name);
      assert l + [] == l && (l + [p])[..|l|] == l;
      if Rounds(j.levels, s + 1, j.name).None? {
        assert Left(js, s + 1) == l + [p];
      } else {
        assert Left(js, s + 1) == l;
      }
    }
  }

  /** Where a pending goto comes from. */
  lemma {:induction false} LeftFrom(js: seq<Jump>, s: nat, p: int) returns (i: nat)
    requires 0 <= p < |Left(js, s)|
    ensures i < |js| && Left(js, s)[p] == Pending(js[i].node, js[i].name) && Rounds(js[i].levels, s, js[i].name).None?
  {
    hide Rounds;
    var n := |js| - 1;
    if p < |Left(js[..n], s)| {
      i := LeftFrom(js[..n], s, p);
    } else {
      i := n;
    }
  }

  lemma {:induction false} LeftHas(js: seq<Jump>, s: nat, i: nat) returns (p: nat)
    requires i < |js| && Rounds(js[i].levels, s, js[i].name).None?
    ensures p < |Left(js, s)| && Left(js, s)[p] == Pending(js[i].node, js[i].name)
  {
    hide Rounds;
    var n := |js| - 1;
    if i < n {
      p := LeftHas(js[..n], s, i);
    } else {
      p := |Left(js[..n], s)|;
    }
  }

  /** Pending gotos are distinct nodes. */
  lemma {:induction false} LeftOrdered(js: seq<Jump>, s: nat)
    requires forall i, k :: 0 <= i < k < |js| ==> js[i].node < js[k].node
    ensures forall p, q :: 0 <= p < q < |Left(js, s)| ==> Left(js, s)[p].node < Left(js, s)[q].node
  {
    hide Rounds;
    if js != [] {
      var n := |js| - 1;
      LeftOrdered(js[..n], s);
      forall p | 0 <= p < |Left(js[..n], s)| ensures Left(js[..n], s)[p].node < js[n].node {
        var i := LeftFrom(js[..n], s, p);
      }
    }
  }

  /** The first `i` pending gotos are patched, the others and all other nodes are as before. */
  ghost predicate Patched(before: seq<Node>, nodes: seq<Node>, ps: seq<Pending>, i: nat, levels: seq<Level>, s: nat)
    requires s < |levels|
  {
    |nodes| == |before| &&
    (forall p :: 0 <= p < |ps| ==> Holds(before, ps[p].node, GotoNode(0))) &&
    (forall p :: 0 <= p < |ps| ==>
       Holds(nodes, ps[p].node, GotoNode(if p < i then OrZero(Round(levels, s, ps[p].name)) else 0))) &&
    (forall n :: 0 <= n < |nodes| && !IsPending(ps, n) ==> nodes[n] == before[n])
  }

  lemma PatchStep(before: seq<Node>, nodes: seq<Node>, ps: seq<Pending>, i: nat, levels: seq<Level>, s: nat)
    requires s < |levels| && i < |ps| && Patched(before, nodes, ps, i, levels, s)
    requires forall p, q :: 0 <= p < q < |ps| ==> ps[p].node < ps[q].node
    ensures Holds(nodes, ps[i].node, GotoNode(0))
    ensures var t := Round(levels, s, ps[i].name);
            Patched(before, if t.Some? then nodes[ps[i].node := GotoNode(t.value)] else nodes, ps, i + 1, levels, s)
  {
    hide Round;
    assert IsPending(ps, ps[i].node);
    assert Holds(nodes, ps[i].node, GotoNode(0));
    var t := Round(levels, s, ps[i].name);
    var after := if t.Some? then nodes[ps[i].node := GotoNode(t.value)] else nodes;
    forall p | 0 <= p < |ps|
      ensures Holds(after, ps[p].node, GotoNode(if p < i + 1 then OrZero(Round(levels, s, ps[p].name)) else 0))
    {
      assert Holds(nodes, ps[p].node, GotoNode(if p < i then OrZero(Round(levels, s, ps[p].name)) else 0));
    }
  }

  /** After the pending gotos of block `s` are patched, every goto holds the outcome of one
      search more. */
  lemma BoundStep(before: seq<Node>, after: seq<Node>, js: seq<Jump>, levels: seq<Level>, s: nat)
    requires |levels| == s + 1 && forall i :: 0 <= i < |js| ==> levels <= js[i].levels
    requires forall i, k :: 0 <= i < k < |js| ==> js[i].node < js[k].node
    requires Bound(before, js, s + 1)
    requires Patched(before, after, Left(js, s + 1), |Left(js, s + 1)|, levels, s)
    ensures Bound(after, js, s)
    ensures forall n :: 0 <= n < |after| && after[n] != before[n] ==> before[n].GotoNode? && IsJump(js, n)
  {
    hide Left, Round;
    var ps := Left(js, s + 1);
    forall i | 0 <= i < |js|
      ensures Holds(after, js[i].node, GotoNode(OrZero(Rounds(js[i].levels, s, js[i].name))))
    {
      RoundOfPrefix(levels, js[i].levels, s, js[i].name);
      if Rounds(js[i].levels, s + 1, js[i].name).None? {
        var p := LeftHas(js, s + 1, i);
        assert Holds(after, ps[p].node, GotoNode(OrZero(Round(levels, s, ps[p].name))));
      } else {
        forall p | 0 <= p < |ps| ensures ps[p].node != js[i].node {
          var k := LeftFrom(js, s + 1, p);
        }
        assert Holds(before, js[i].node, GotoNode(OrZero(Rounds(js[i].levels, s + 1, js[i].name))));
      }
    }
    forall n | 0 <= n < |after| && after[n] != before[n] ensures before[n].GotoNode? && IsJump(js, n) {
      var p :| 0 <= p < |ps| && ps[p].node == n;
      assert Holds(before, ps[p].node, GotoNode(0));
      var i := LeftFrom(js, s + 1, p);
    }
  }

  // ----- the parser -----

  /** Labels and pending gotos added to the innermost scope. */
  function WithRecords(scopes: seq<Scope>, ls: seq<LabelRec>, ps: seq<Pending>): seq<Scope> {
    if scopes == [] then []
    else
      var t := |scopes| - 1;
      scopes[t := Scope(scopes[t].labels + ls, scopes[t].gotos + ps)]
  }

  function LabelsOf(scopes: seq<Scope>): seq<seq<LabelRec>> {
    seq(|scopes|, i requires 0 <= i < |scopes| => scopes[i].labels)
  }

  class Parser {
    var nodes: seq<Node>
    var scopes: seq<Scope>
    /** The strings registered in the string arena. */
    var names: seq<Name>
    var nlocals: nat
    var loopDepth: nat

    constructor (registered: seq<Name>)
      ensures nodes == [] && scopes == [] && names == registered && nlocals == 0 && loopDepth == 0
    {
      nodes, scopes, names, nlocals, loopDepth := [], [], registered, 0, 0;
    }

    /** Registers a name, as the string arena does. */
    method Intern(name: Name) returns (ok: bool)
      modifies this`names
      ensures ok <==> CanHold(Added(old(names), name))
      ensures ok ==> names == Added(old(names), name)
    {
      var more := Added(names, name);
      ok := CanHold(more);
      if ok {
        names := more;
      }
    }

    method Alloc(n: Node) returns (r: Result<nat, Failure>)
      modifies this`nodes
      ensures r.Err? <==> |old(nodes)| >= MAX_NODES
      ensures r.Err? ==> r.error == TooComplex
      ensures r.Ok? ==> r.value == |old(nodes)| && nodes == old(nodes) + [n]
    {
      if |nodes| >= MAX_NODES {
        return Err(TooComplex);
      }
      nodes := nodes + [n];
      return Ok(|nodes| - 1);
    }

    method FirstLabel(ls: seq<LabelRec>, name: Name) returns (r: Option<nat>)
      ensures r == FirstOf(ls, name)
    {
      for i := 0 to |ls|
        invariant FirstOf(ls, name) == FirstOf(ls[i..], name)
      {
        if ls[i].name == name {
          return Some(ls[i].node);
        }
      }
      return None;
    }

    method FindLabel(name: Name, innermost: nat) returns (r: Option<nat>)
      requires innermost < |scopes|
      ensures r == Search(LabelsOf(scopes[..innermost + 1]), name)
    {
      ghost var all := LabelsOf(scopes[..innermost + 1]);
      assert all[..innermost + 1] == all;
      var k := innermost + 1;
      while k > 0
        invariant 0 <= k <= innermost + 1 && Search(all, name) == Search(all[..k], name)
      {
        k := k - 1;
        assert all[..k + 1][..k] == all[..k];
        r := FirstLabel(scopes[k].labels, name);
        if r.Some? {
          return;
        }
      }
      return None;
    }

    /** The end of the innermost block. */
    method ResolveScope(ghost levels: seq<Level>, ghost js: seq<Jump>) returns (r: Result<(), Failure>)
      requires scopes != [] && |levels| == |scopes| && Seen(scopes, levels, levels[|levels| - 1].end)
      requires scopes[|scopes| - 1].gotos == Left(js, |scopes|)
      requires Bound(nodes, js, |scopes|)
      requires forall i :: 0 <= i < |js| ==> levels <= js[i].levels
      requires forall i, k :: 0 <= i < k < |js| ==> js[i].node < js[k].node
      requires forall i :: 0 <= i < |scopes| ==> |scopes[i].gotos| <= MAX_GOTOS
      modifies this`nodes, this`scopes
      ensures r.Ok? ==>
                var s := |old(scopes)| - 1;
                scopes == WithRecords(old(scopes)[..s], [], Left(js, s)) && Bound(nodes, js, s)
      ensures r.Ok? ==> (|old(scopes)| == 1 ==> Left(js, 0) == [])
      ensures r.Ok? ==> forall i :: 0 <= i < |scopes| ==> |scopes[i].gotos| <= MAX_GOTOS
      ensures r.Ok? ==> |nodes| == |old(nodes)| && forall n :: 0 <= n < |nodes| && nodes[n] != old(nodes)[n] ==>
                old(nodes)[n].GotoNode? && IsJump(js, n)
      ensures r.Err? ==>
                if |old(scopes)| == 1 then r.error == UnknownLabel && Left(js, 0) != []
                else r.error == TooManyGotos &&
                     |old(scopes)[|old(scopes)| - 2].gotos| + |Left(js, |old(scopes)| - 1)| > MAX_GOTOS
    {
      hide Bound, Left, Round, Rounds, Search, LabelsOf, Patched, Unresolved, Deferred, Seen, WithRecords;
      var s := |scopes| - 1;
      var gotos := scopes[s].gotos;
      ghost var before := nodes;
      ghost var outer := scopes;
      LeftStep(js, levels, s);
      LeftOrdered(js, s + 1);
      PatchStart(nodes, js, levels, s);
      UnresolvedStep(gotos, 0, levels, s);
      NoGotos(outer, s);
      for i := 0 to |gotos|
        invariant Patched(before, nodes, gotos, i, levels, s)
        invariant Deferred(outer, scopes, s, Unresolved(gotos[..i], levels, s))
        invariant s == 0 ==> Unresolved(gotos[..i], levels, s) == []
        invariant forall k :: 0 <= k < |scopes| ==> |scopes[k].gotos| <= MAX_GOTOS
      {
        var g := gotos[i];
        ghost var us := Unresolved(gotos[..i], levels, s);
        DeferredFacts(outer, scopes, s, us);
        SearchIsRound(scopes, levels, s, g.name, outer);
        var target := FindLabel(g.name, s);
        UnresolvedStep(gotos, i, levels, s);
        PatchStep(before, nodes, gotos, i, levels, s);
        match target {
          case Some(t) =>
            nodes := nodes[g.node := GotoNode(t)];
          case None =>
            if s == 0 {
              return Err(UnknownLabel);
            }
            if |scopes[s - 1].gotos| >= MAX_GOTOS {
              return Err(TooManyGotos);
            }
            PushGoto(outer, scopes, s, us, g);
            scopes := scopes[s - 1 := scopes[s - 1].(gotos := scopes[s - 1].gotos + [g])];
        }
      }
      assert gotos[..|gotos|] == gotos;
      DeferredFacts(outer, scopes, s, Left(js, s));
      scopes := scopes[..s];
      BoundStep(before, nodes, js, levels, s);
      PatchedLength(before, nodes, gotos, |gotos|, levels, s);
      return Ok(());
    }

    method InternAll(list: seq<Name>) returns (ok: bool)
      requires CanHold(names)
      modifies this`names
      ensures ok <==> CanHold(AddAll(old(names), list))
      ensures ok ==> names == AddAll(old(names), list)
    {
      hide CanHold, AddAll, Added;
      AddNone(names);
      assert list[..0] == [];
      for i := 0 to |list|
        invariant names == AddAll(old(names), list[..i]) && CanHold(names)
      {
        AddLast(names, old(names), list, i);
        ok := Intern(list[i]);
        if !ok {
          return false;
        }
      }
      assert list[..|list|] == list;
      return true;
    }

    /** Nodes of no concern here. */
    method AllocOthers(count: nat) returns (ok: bool)
      requires |nodes| <= MAX_NODES
      modifies this`nodes
      ensures ok <==> |old(nodes)| + count <= MAX_NODES
      ensures ok ==> |nodes| == |old(nodes)| + count && nodes[..|old(nodes)|] == old(nodes)
    {
      for i := 0 to count
        invariant |nodes| == |old(nodes)| + i <= MAX_NODES && nodes[..|old(nodes)|] == old(nodes)
      {
        var n := Alloc(OtherNode);
        if n.Err? {
          return false;
        }
      }
      return true;
    }

    /** Locals declared one after the other. */
    method DeclareLocals(count: nat) returns (ok: bool)
      requires nlocals <= MAX_RESOLVED
      modifies this`nlocals
      ensures ok <==> old(nlocals) + count <= MAX_RESOLVED
      ensures ok ==> nlocals == old(nlocals) + count
    {
      for i := 0 to count
        invariant nlocals == old(nlocals) + i <= MAX_RESOLVED
      {
        if nlocals >= MAX_RESOLVED {
          return false;
        }
        nlocals := nlocals + 1;
      }
      return true;
    }

    method RecordLabel(name: Name, node: nat) returns (ok: bool)
      requires scopes != [] && Roomy(scopes)
      modifies this`scopes
      ensures ok <==> Roomy(WithRecords(old(scopes), [LabelRec(name, node)], []))
      ensures ok ==> scopes == WithRecords(old(scopes), [LabelRec(name, node)], [])
    {
      var t := |scopes| - 1;
      ghost var more := WithRecords(scopes, [LabelRec(name, node)], []);
      assert scopes[t].gotos + [] == scopes[t].gotos;
      if |scopes[t].labels| >= MAX_LABELS {
        assert |more[t].labels| > MAX_LABELS;
        return false;
      }
      scopes := scopes[t := scopes[t].(labels := scopes[t].labels + [LabelRec(name, node)])];
      return true;
    }

    method RecordGoto(node: nat, name: Name) returns (ok: bool)
      requires scopes != [] && Roomy(scopes)
      modifies this`scopes
      ensures ok <==> Roomy(WithRecords(old(scopes), [], [Pending(node, name)]))
      ensures ok ==> scopes == WithRecords(old(scopes), [], [Pending(node, name)])
    {
      var t := |scopes| - 1;
      ghost var more := WithRecords(scopes, [], [Pending(node, name)]);
      assert scopes[t].labels + [] == scopes[t].labels;
      if |scopes[t].gotos| >= MAX_GOTOS {
        assert |more[t].gotos| > MAX_GOTOS;
        return false;
      }
      scopes := scopes[t := scopes[t].(gotos := scopes[t].gotos + [Pending(node, name)])];
      return true;
    }

    // ----- blocks and statements -----

    method ParseStat(s: Stmt, ghost levels: seq<Level>) returns (r: Result<(), Failure>)
      requires levels != [] && Seen(scopes, levels, |nodes|)
      requires s.Nested? ==> WellNested(levels + [LevelOf(s.body, |nodes|)])
      requires |nodes| <= MAX_NODES && Roomy(scopes) && CanHold(names) && nlocals <= MAX_RESOLVED
      modifies this
      ensures r.Ok? ==> StmtLegal(s, old(nlocals), old(loopDepth))
      ensures r.Ok? ==> nlocals == old(nlocals) + StmtLocals(s) <= MAX_RESOLVED && loopDepth == old(loopDepth)
      ensures r.Ok? ==> StmtDone(old(nodes), nodes, old(scopes), scopes, s, levels)
      ensures r.Ok? ==> names == AddAll(old(names), StmtNames(s)) && CanHold(names)
      ensures r.Err? ==> r.error != UnknownLabel
      ensures r.Err? ==> StmtOver(old(nodes), old(scopes), s, levels) || !CanHold(AddAll(old(names), StmtNames(s))) ||
                         !StmtLegal(s, old(nlocals), old(loopDepth))
      decreases s
    {
      hide Before, Left, Within, Labels, AllLabels, Jumps, Size, WellNested, Rounds, CanHold, AddAll, Added, Names, Legal;
      hide WithRecords, Roomy;
      ghost var node := |nodes|;
      NoRecords(scopes);
      match s {
        case LabelStmt(name) =>
          AddOne(names, name);
          var ok := Intern(name);
          if !ok {
            return Err(NoRoomForName);
          }
          var n := Alloc(LabelNode(name));
          if n.Err? {
            return Err(n.error);
          }
          LeftOne(node, name, levels);
          var fit := RecordLabel(name, n.value);
          if !fit {
            return Err(TooManyLabels);
          }
        case GotoStmt(name) =>
          AddOne(names, name);
          var ok := Intern(name);
          if !ok {
            return Err(NoRoomForName);
          }
          var n := Alloc(GotoNode(0));
          if n.Err? {
            return Err(n.error);
          }
          LeftOne(node, name, levels);
          var fit := RecordGoto(n.value, name);
          if !fit {
            return Err(TooManyGotos);
          }
        case BreakStmt =>
          if loopDepth == 0 {
            return Err(BreakOutsideLoop);
          }
          AddNone(names);
          var fit := AllocOthers(1);
          if !fit {
            return Err(TooComplex);
          }
          LeftOne(node, [], levels);
        case Nested(body, vars, loop) =>
          var mark := nlocals;
          var ok := DeclareLocals(vars);
          if !ok {
            return Err(TooManyLocals);
          }
          if loop {
            loopDepth := loopDepth + 1;
          }
          r := ParseBlock(body, levels);
          if r.Err? {
            return;
          }
          if loop {
            loopDepth := loopDepth - 1;
          }
          nlocals := mark;
        case Other(count, list, locals) =>
          var ok := InternAll(list);
          if !ok {
            return Err(NoRoomForName);
          }
          var fit := AllocOthers(count);
          if !fit {
            return Err(TooComplex);
          }
          LeftOne(node, [], levels);
          if locals >= MAX_LOCALS {
            return Err(TooManyLocals);
          }
          var declared := DeclareLocals(locals);
          if !declared {
            return Err(TooManyLocals);
          }
      }
      return Ok(());
    }

    /** A block: its own scope, its statements, and the end of the scope. */
    method ParseBlock(b: Block, ghost outer: seq<Level>) returns (r: Result<(), Failure>)
      requires Seen(scopes, outer, |nodes|) && WellNested(outer + [LevelOf(b, |nodes|)])
      requires |nodes| <= MAX_NODES && Roomy(scopes) && CanHold(names) && nlocals <= MAX_RESOLVED
      modifies this
      ensures r.Ok? ==> Legal(b, old(nlocals), old(loopDepth)) && nlocals == old(nlocals) && loopDepth == old(loopDepth)
      ensures r.Ok? ==> BlockDone(old(nodes), nodes, old(scopes), scopes, b, outer)
      ensures r.Ok? ==> names == AddAll(old(names), Names(b)) && CanHold(names)
      ensures r.Err? ==>
                if r.error == UnknownLabel then outer == [] && Left(BlockJumps(b, |old(nodes)|, []), 0) != []
                else BlockOver(old(nodes), old(scopes), b, outer) || !CanHold(AddAll(old(names), Names(b))) ||
                     !Legal(b, old(nlocals), old(loopDepth))
      decreases b, 1
    {
      hide Before, Left, Within, Labels, AllLabels, Jumps, Size, WellNested, Rounds, Seen, Progress;
      hide StmtDone, StmtOver, BlockDone, BlockOver, Bound, CanHold, AddAll, Names, StmtNames;
      hide Legal, StmtLegal, Locals, StmtLocals, Kept;
      if |scopes| >= MAX_SCOPES {
        TooDeep(nodes, scopes, b, outer);
        return Err(TooComplex);
      }
      ghost var before, around := nodes, scopes;
      var mark := nlocals;
      ghost var levels := outer + [LevelOf(b, |nodes|)];
      scopes := scopes + [Scope([], [])];
      ProgressStart(nodes, around, b, outer);
      KeptStart(names, mark, loopDepth, b);
      for k := 0 to |b|
        invariant Progress(before, nodes, around, scopes, b, k, outer)
        invariant Kept(old(names), mark, loopDepth, b, k, names, nlocals) && loopDepth == old(loopDepth)
      {
        ProgressSeen(before, nodes, around, scopes, b, k, outer);
        KeptNow(old(names), mark, loopDepth, b, k, names, nlocals);
        ghost var nodes', scopes', names', nlocals' := nodes, scopes, names, nlocals;
        r := ParseStat(b[k], levels);
        if r.Err? {
          if StmtOver(nodes', scopes', b[k], levels) {
            ProgressOver(before, nodes', around, scopes', b, k, outer);
          }
          return;
        }
        ProgressStep(before, nodes', nodes, around, scopes', scopes, b, k, outer);
        KeptStep(old(names), mark, loopDepth, b, k, names', nlocals', names, nlocals);
      }
      ProgressEnd(before, nodes, around, scopes, b, outer);
      KeptEnd(old(names), mark, loopDepth, b, names, nlocals);
      nlocals := mark;
      ghost var nodes', scopes' := nodes, scopes;
      ghost var js := BlockJumps(b, |before|, outer);
      r := ResolveScope(levels, js);
      if r.Ok? {
        BlockFinish(before, nodes', nodes, around, scopes', scopes, b, outer);
      } else if r.error != UnknownLabel {
        BlockFails(before, around, b, outer);
      }
    }
  }

  /** A script without nested functions parses exactly when it fits the capacities and breaks only
      out of loops, its names fit the string arena beside those registered, and every goto has a
      label of its name in its own or an enclosing block; then every goto node holds the node of
      such a label. Otherwise, when all fits, the failure is the unknown label. */
  method ParseBody(b: Block, registered: seq<Name>) returns (p: Parser, r: Result<(), Failure>)
    requires CanHold(registered)
    ensures r.Ok? <==> Fits(b) && CanHold(AddAll(registered, Names(b))) &&
                       forall i :: 0 <= i < |BlockJumps(b, 0, [])| ==> HasLabel(BlockJumps(b, 0, [])[i])
    ensures r.Err? && Fits(b) && CanHold(AddAll(registered, Names(b))) ==> r.error == UnknownLabel
    ensures r.Ok? ==> |p.nodes| == Size(b) && p.names == AddAll(registered, Names(b))
    ensures r.Ok? ==> forall i :: 0 <= i < |BlockJumps(b, 0, [])| ==> Lands(p.nodes, BlockJumps(b, 0, [])[i])
  {
    hide CanHold, AddAll, Names;
    p := new Parser(registered);
    BodyNested(b);
    r := p.ParseBlock(b, []);
    ghost var js := BlockJumps(b, 0, []);
    BlockJumpsIn(b, 0, []);
    forall i | 0 <= i < |js|
      ensures js[i].levels != [] && Rounds(js[i].levels, 0, js[i].name) == Choice(js[i].levels, js[i].name)
      ensures HasLabel(js[i]) <==> Rounds(js[i].levels, 0, js[i].name).Some?
    {
      JumpOutcome(js[i]);
    }
    if r.Ok? {
      forall i | 0 <= i < |js| ensures HasLabel(js[i]) && Lands(p.nodes, js[i]) {
        if !HasLabel(js[i]) {
          ghost var q := LeftHas(js, 0, i);
        }
        BodyLabels(b, p.nodes, i);
      }
    } else if r.error == UnknownLabel {
      ghost var i := LeftFrom(js, 0, 0);
    }
  }

  /** The blocks, nodes and locals fit the capacities, and every `break` is in a loop. */
  ghost predicate Fits(b: Block) {
    Within(b, 0, []) && Size(b) <= MAX_NODES && Legal(b, 0, 0)
  }

  /** The jump's node holds the node of the label chosen for it, and that node is a label of
      the jump's name. */
  ghost predicate Lands(nodes: seq<Node>, j: Jump) {
    j.levels != [] && Choice(j.levels, j.name).Some? &&
    Holds(nodes, j.node, GotoNode(Choice(j.levels, j.name).value)) &&
    Holds(nodes, Choice(j.levels, j.name).value, LabelNode(j.name))
  }

  /** Names registered and locals declared by the first `k` statements of a block. */
  ghost predicate Kept(names0: seq<Name>, n0: nat, depth: nat, b: Block, k: nat, names: seq<Name>, n: nat) {
    k <= |b| && names == AddAll(names0, Names(b[..k])) && CanHold(names) &&
    n == n0 + Locals(b[..k]) <= MAX_RESOLVED && Legal(b[..k], n0, depth)
  }

  lemma KeptStart(names: seq<Name>, n: nat, depth: nat, b: Block)
    requires CanHold(names) && n <= MAX_RESOLVED
    ensures Kept(names, n, depth, b, 0, names, n)
  {
    hide CanHold, AddAll;
    assert b[..0] == [];
    AddNone(names);
  }

  /** What the next statement breaks, the block breaks. */
  lemma KeptNow(names0: seq<Name>, n0: nat, depth: nat, b: Block, k: nat, names: seq<Name>, n: nat)
    requires k < |b| && Kept(names0, n0, depth, b, k, names, n)
    ensures CanHold(names) && n <= MAX_RESOLVED
    ensures CanHold(AddAll(names0, Names(b))) ==> CanHold(AddAll(names, StmtNames(b[k])))
    ensures Legal(b, n0, depth) ==> StmtLegal(b[k], n, depth)
  {
    hide CanHold, AddAll, Names, StmtNames, Locals, Legal, StmtLegal;
    LegalUpTo(b, k, n0, depth);
    var rest := NamesUpTo(b, k);
    AddInTurn(names0, Names(b[..k]), StmtNames(b[k]));
    if CanHold(AddAll(names0, Names(b))) {
      FewerFit(names0, Names(b[..k + 1]), rest);
    }
  }

  lemma KeptStep(names0: seq<Name>, n0: nat, depth: nat, b: Block, k: nat, names: seq<Name>, n: nat,
                 names': seq<Name>, n': nat)
    requires k < |b| && Kept(names0, n0, depth, b, k, names, n)
    requires names' == AddAll(names, StmtNames(b[k])) && CanHold(names')
    requires StmtLegal(b[k], n, depth) && n' == n + StmtLocals(b[k]) <= MAX_RESOLVED
    ensures Kept(names0, n0, depth, b, k + 1, names', n')
  {
    hide CanHold, AddAll, Names, StmtNames, Locals, StmtLocals, Legal, StmtLegal;
    LegalUpTo(b, k, n0, depth);
    var rest := NamesUpTo(b, k);
    AddInTurn(names0, Names(b[..k]), StmtNames(b[k]));
  }

  lemma KeptEnd(names0: seq<Name>, n0: nat, depth: nat, b: Block, names: seq<Name>, n: nat)
    requires Kept(names0, n0, depth, b, |b|, names, n)
    ensures names == AddAll(names0, Names(b)) && CanHold(names) && Legal(b, n0, depth)
  {
    assert b[..|b|] == b;
  }

  lemma NoRecords(scopes: seq<Scope>)
    ensures WithRecords(scopes, [], []) == scopes
  {
    if scopes != [] {
      var top := scopes[|scopes| - 1];
      assert top.labels + [] == top.labels && top.gotos + [] == top.gotos;
    }
  }

  lemma LeftOne(node: nat, name: Name, levels: seq<Level>)
    ensures Left([], |levels|) == [] && Rounds(levels, |levels|, name) == None
    ensures Left([Jump(node, name, levels)], |levels|) == [Pending(node, name)]
  {
    assert [Jump(node, name, levels)][..0] == [];
  }

  /** Nodes added at the end leave the others as they are. */
  lemma MoreNodes(nodes: seq<Node>, more: seq<Node>, js: seq<Jump>, ls: seq<LabelRec>, s: nat)
    requires |nodes| <= |more| && more[..|nodes|] == nodes && Bound(nodes, js, s) && Marked(nodes, ls)
    ensures Bound(more, js, s) && Marked(more, ls)
  {
    hide Rounds;
    forall n: nat, x | Holds(nodes, n, x) ensures Holds(more, n, x) {
      assert more[..|nodes|][n] == more[n];
    }
    forall i | 0 <= i < |js| ensures Holds(more, js[i].node, GotoNode(OrZero(Rounds(js[i].levels, s, js[i].name)))) {
      assert Holds(nodes, js[i].node, GotoNode(OrZero(Rounds(js[i].levels, s, js[i].name))));
    }
  }

  // ----- progress through a block -----

  ghost predicate Roomy(scopes: seq<Scope>) {
    forall i :: 0 <= i < |scopes| ==> |scopes[i].labels| <= MAX_LABELS && |scopes[i].gotos| <= MAX_GOTOS
  }

  /** What parsing statement `s` with the given levels around it does. */
  ghost predicate StmtDone(before: seq<Node>, nodes: seq<Node>, scopes: seq<Scope>, scopes': seq<Scope>,
                           s: Stmt, levels: seq<Level>)
  {
    var node := |before|;
    |nodes| == node + StmtSize(s) <= MAX_NODES && nodes[..node] == before &&
    scopes' == WithRecords(scopes, StmtLabels(s, node), Left(StmtJumps(s, node, levels), |levels|)) && Roomy(scopes') &&
    Bound(nodes, StmtJumps(s, node, levels), |levels|) && Marked(nodes, StmtAllLabels(s, node)) &&
    StmtWithin(s, node, levels)
  }

  ghost predicate StmtOver(before: seq<Node>, scopes: seq<Scope>, s: Stmt, levels: seq<Level>)
  {
    var node := |before|;
    node + StmtSize(s) > MAX_NODES || !StmtWithin(s, node, levels) ||
    !Roomy(WithRecords(scopes, StmtLabels(s, node), Left(StmtJumps(s, node, levels), |levels|)))
  }

  ghost predicate BlockDone(before: seq<Node>, nodes: seq<Node>, scopes: seq<Scope>, scopes': seq<Scope>,
                            b: Block, outer: seq<Level>)
  {
    var node := |before|;
    |nodes| == node + Size(b) <= MAX_NODES && nodes[..node] == before &&
    scopes' == WithRecords(scopes, [], Left(BlockJumps(b, node, outer), |outer|)) && Roomy(scopes') &&
    (outer == [] ==> Left(BlockJumps(b, node, outer), 0) == []) &&
    Bound(nodes, BlockJumps(b, node, outer), |outer|) && Marked(nodes, AllLabels(b, node)) &&
    Within(b, node, outer)
  }

  ghost predicate BlockOver(before: seq<Node>, scopes: seq<Scope>, b: Block, outer: seq<Level>)
  {
    var node := |before|;
    node + Size(b) > MAX_NODES || !Within(b, node, outer) ||
    !Roomy(WithRecords(scopes, [], Left(BlockJumps(b, node, outer), |outer|)))
  }

  /** The state after `k` statements of block `b`. */
  ghost predicate Progress(before: seq<Node>, nodes: seq<Node>, around: seq<Scope>, scopes: seq<Scope>,
                           b: Block, k: nat, outer: seq<Level>)
  {
    var base := |before|;
    var levels := outer + [LevelOf(b, base)];
    k <= |b| && |around| == |outer| < MAX_SCOPES && Seen(around, outer, base) && WellNested(levels) &&
    |nodes| == base + Size(b[..k]) <= MAX_NODES && nodes[..base] == before &&
    scopes == around + [Scope(Labels(b[..k], base), Left(Jumps(b[..k], base, levels), |levels|))] && Roomy(scopes) &&
    Bound(nodes, Jumps(b[..k], base, levels), |levels|) && Marked(nodes, AllLabels(b[..k], base)) &&
    StmtsWithin(b[..k], base, levels)
  }

  lemma TooDeep(nodes: seq<Node>, scopes: seq<Scope>, b: Block, outer: seq<Level>)
    requires Seen(scopes, outer, |nodes|) && |scopes| >= MAX_SCOPES
    ensures BlockOver(nodes, scopes, b, outer)
  {
  }

  lemma {:induction false} ProgressStart(nodes: seq<Node>, around: seq<Scope>, b: Block, outer: seq<Level>)
    requires Seen(around, outer, |nodes|) && WellNested(outer + [LevelOf(b, |nodes|)]) && |around| < MAX_SCOPES
    requires |nodes| <= MAX_NODES && Roomy(around)
    ensures Progress(nodes, nodes, around, around + [Scope([], [])], b, 0, outer)
  {
    hide WellNested, Before;
    var base := |nodes|;
    var levels := outer + [LevelOf(b, base)];
    assert b[..0] == [] && Size([]) == 0 && Labels([], base) == [] && AllLabels([], base) == [];
    assert Jumps([], base, levels) == [] && Left([], |levels|) == [];
    assert nodes[..base] == nodes;
  }

  /** The scopes hold what the block and the blocks around it have recorded so far. */
  lemma ProgressSeen(before: seq<Node>, nodes: seq<Node>, around: seq<Scope>, scopes: seq<Scope>,
                     b: Block, k: nat, outer: seq<Level>)
    requires Progress(before, nodes, around, scopes, b, k, outer)
    ensures Seen(scopes, outer + [LevelOf(b, |before|)], |nodes|)
    ensures |nodes| <= MAX_NODES && Roomy(scopes)
    ensures k < |b| && b[k].Nested? ==> WellNested(outer + [LevelOf(b, |before|)] + [LevelOf(b[k].body, |nodes|)])
  {
    hide Labels, Left, Jumps, AllLabels, StmtsWithin, Bound, Marked, Size, Before;
    var base := |before|;
    var levels := outer + [LevelOf(b, base)];
    LabelsSplit(b, k, base);
    LabelsBefore(b, k, base);
    forall i | 0 <= i < |outer| ensures Before(levels[i].labels, |nodes|) == scopes[i].labels {
      OuterLabels(levels, i, base, |nodes|);
    }
    if k < |b| && b[k].Nested? {
      NestStep(b, k, base, outer);
    }
  }

  /** No label of a block around is recorded while a block inside is parsed. */
  lemma OuterLabels(levels: seq<Level>, i: nat, base: nat, n: nat)
    requires WellNested(levels) && i < |levels| - 1
    requires levels[|levels| - 1].start == base <= n <= levels[|levels| - 1].end
    ensures Before(levels[i].labels, n) == Before(levels[i].labels, base)
  {
    var own := |levels| - 1;
    assert levels[i + 1].start <= levels[own].start && levels[own].end <= levels[i + 1].end;
    BeforeAgree(levels[i].labels, n, base);
  }

  lemma {:induction false} BoundConcat(nodes: seq<Node>, a: seq<Jump>, c: seq<Jump>, s: nat)
    requires Bound(nodes, a, s) && Bound(nodes, c, s)
    ensures Bound(nodes, a + c, s)
  {
    hide Rounds, Holds;
  }

  lemma ProgressStep(before: seq<Node>, nodes: seq<Node>, nodes': seq<Node>, around: seq<Scope>, scopes: seq<Scope>,
                     scopes': seq<Scope>, b: Block, k: nat, outer: seq<Level>)
    requires k < |b| && Progress(before, nodes, around, scopes, b, k, outer)
    requires StmtDone(nodes, nodes', scopes, scopes', b[k], outer + [LevelOf(b, |before|)])
    ensures Progress(before, nodes', around, scopes', b, k + 1, outer)
  {
    hide Labels, Left, Jumps, AllLabels, Bound, Marked, Size, WellNested, Seen;
    hide StmtSize, StmtLabels, StmtJumps, StmtAllLabels, StmtWithin;
    var base := |before|;
    var levels := outer + [LevelOf(b, base)];
    var done, s := b[..k], b[k];
    assert b[..k + 1] == done + [s] && Init(done + [s]) == done;
    Snoc(done, s, base);
    SnocAllLabels(done, s, base);
    SnocJumps(done, s, base, levels);
    LeftConcat(Jumps(done, base, levels), StmtJumps(s, |nodes|, levels), |levels|);
    MoreNodes(nodes, nodes', Jumps(done, base, levels), AllLabels(done, base), |levels|);
    BoundConcat(nodes', Jumps(done, base, levels), StmtJumps(s, |nodes|, levels), |levels|);
    MarkedConcat(nodes', AllLabels(done, base), StmtAllLabels(s, |nodes|));
    assert nodes'[..base] == nodes'[..|nodes|][..base];
  }

  lemma MarkedConcat(nodes: seq<Node>, a: seq<LabelRec>, c: seq<LabelRec>)
    requires Marked(nodes, a) && Marked(nodes, c)
    ensures Marked(nodes, a + c)
  {
  }

  /** A statement that does not fit is in a block that does not fit. */
  lemma ProgressOver(before: seq<Node>, nodes: seq<Node>, around: seq<Scope>, scopes: seq<Scope>,
                     b: Block, k: nat, outer: seq<Level>)
    requires k < |b| && Progress(before, nodes, around, scopes, b, k, outer)
    requires StmtOver(nodes, scopes, b[k], outer + [LevelOf(b, |before|)])
    ensures BlockOver(before, around, b, outer)
  {
    hide Labels, Left, Jumps, AllLabels, Bound, Marked, Size, WellNested, Seen;
    hide StmtSize, StmtLabels, StmtJumps, StmtAllLabels, StmtWithin;
    var base := |before|;
    var levels := outer + [LevelOf(b, base)];
    var done, s := b[..k], b[k];
    assert b[..k + 1] == done + [s] && Init(done + [s]) == done;
    Snoc(done, s, base);
    SnocJumps(done, s, base, levels);
    LeftConcat(Jumps(done, base, levels), StmtJumps(s, |nodes|, levels), |levels|);
    PrefixUses(b, k + 1, base, levels, |levels|);
  }

  /** The state in which the block's end is reached. */
  lemma ProgressEnd(before: seq<Node>, nodes: seq<Node>, around: seq<Scope>, scopes: seq<Scope>, b: Block, outer: seq<Level>)
    requires Progress(before, nodes, around, scopes, b, |b|, outer)
    ensures var levels := outer + [LevelOf(b, |before|)];
            var js := BlockJumps(b, |before|, outer);
            |levels| == |scopes| && Seen(scopes, levels, levels[|levels| - 1].end) && Roomy(scopes) &&
            scopes == around + [scopes[|around|]] && scopes[|scopes| - 1].gotos == Left(js, |scopes|) &&
            Bound(nodes, js, |scopes|) &&
            (forall i :: 0 <= i < |js| ==> levels <= js[i].levels && |before| <= js[i].node) &&
            (forall i, k :: 0 <= i < k < |js| ==> js[i].node < js[k].node)
  {
    hide Labels, Left, Jumps, AllLabels, Bound, Marked, Size, WellNested, Before, StmtsWithin;
    assert b[..|b|] == b;
    ProgressSeen(before, nodes, around, scopes, b, |b|, outer);
    BlockJumpsIn(b, |before|, outer);
  }

  lemma BlockFinish(before: seq<Node>, nodes: seq<Node>, nodes': seq<Node>, around: seq<Scope>, scopes: seq<Scope>,
                    scopes': seq<Scope>, b: Block, outer: seq<Level>)
    requires Progress(before, nodes, around, scopes, b, |b|, outer)
    requires var js := BlockJumps(b, |before|, outer);
             Bound(nodes', js, |outer|) && |nodes'| == |nodes| &&
             (forall n :: 0 <= n < |nodes'| && nodes'[n] != nodes[n] ==> nodes[n].GotoNode? && IsJump(js, n)) &&
             (forall i :: 0 <= i < |js| ==> |before| <= js[i].node) &&
             scopes' == WithRecords(around, [], Left(js, |outer|)) && (|scopes| == 1 ==> Left(js, 0) == []) &&
             forall i :: 0 <= i < |scopes'| ==> |scopes'[i].gotos| <= MAX_GOTOS
    ensures BlockDone(before, nodes', around, scopes', b, outer)
  {
    hide Labels, Left, Jumps, AllLabels, Bound, Size, WellNested, Seen, StmtsWithin;
    assert b[..|b|] == b;
    var ls := AllLabels(b, |before|);
    forall i | 0 <= i < |ls| ensures Holds(nodes', ls[i].node, LabelNode(ls[i].name)) {
      assert Holds(nodes, ls[i].node, LabelNode(ls[i].name));
    }
    assert nodes'[..|before|] == before;
    forall i | 0 <= i < |scopes'| ensures |scopes'[i].labels| <= MAX_LABELS {
      assert scopes'[i].labels == around[i].labels == scopes[i].labels;
    }
    assert |scopes[|around|].labels| <= MAX_LABELS && |scopes[|around|].gotos| <= MAX_GOTOS;
  }

  lemma BlockFails(before: seq<Node>, around: seq<Scope>, b: Block, outer: seq<Level>)
    requires |around| == |outer| > 0
    requires |around[|around| - 1].gotos| + |Left(BlockJumps(b, |before|, outer), |outer|)| > MAX_GOTOS
    ensures BlockOver(before, around, b, outer)
  {
    hide Left, BlockJumps, Within, Size;
    var scopes := WithRecords(around, [], Left(BlockJumps(b, |before|, outer), |outer|));
    assert |scopes[|around| - 1].gotos| > MAX_GOTOS;
  }

  lemma PatchedLength(before: seq<Node>, nodes: seq<Node>, ps: seq<Pending>, i: nat, levels: seq<Level>, s: nat)
    requires s < |levels| && Patched(before, nodes, ps, i, levels, s)
    ensures |nodes| == |before|
  {
  }

  /** The scopes while block `s` ends: `us` has been added to the enclosing block's pending gotos. */
  ghost predicate Deferred(outer: seq<Scope>, scopes: seq<Scope>, s: nat, us: seq<Pending>) {
    s + 1 == |outer| && scopes == WithRecords(outer[..s], [], us) + [outer[s]]
  }

  lemma DeferredFacts(outer: seq<Scope>, scopes: seq<Scope>, s: nat, us: seq<Pending>)
    requires Deferred(outer, scopes, s, us)
    ensures |scopes| == |outer| && scopes[..s] == WithRecords(outer[..s], [], us)
    ensures forall i :: 0 <= i <= s ==> scopes[i].labels == outer[i].labels
    ensures s > 0 ==> scopes[s - 1].gotos == outer[s - 1].gotos + us
  {
  }

  lemma NoGotos(outer: seq<Scope>, s: nat)
    requires s + 1 == |outer|
    ensures Deferred(outer, outer, s, [])
  {
    if s > 0 {
      assert outer[s - 1].labels + [] == outer[s - 1].labels && outer[s - 1].gotos + [] == outer[s - 1].gotos;
    }
  }

  lemma PushGoto(outer: seq<Scope>, scopes: seq<Scope>, s: nat, us: seq<Pending>, g: Pending)
    requires 0 < s < |scopes| && Deferred(outer, scopes, s, us)
    ensures Deferred(outer, scopes[s - 1 := scopes[s - 1].(gotos := scopes[s - 1].gotos + [g])], s, us + [g])
  {
    assert outer[s - 1].gotos + us + [g] == outer[s - 1].gotos + (us + [g]);
  }

  lemma UnresolvedStep(ps: seq<Pending>, i: nat, levels: seq<Level>, s: nat)
    requires i <= |ps| && s < |levels|
    ensures Unresolved(ps[..0], levels, s) == []
    ensures i < |ps| ==>
              var us := Unresolved(ps[..i], levels, s);
              Unresolved(ps[..i + 1], levels, s) == if Round(levels, s, ps[i].name).None? then us + [ps[i]] else us
    ensures i < |ps| ==> |Unresolved(ps[..i + 1], levels, s)| <= |Unresolved(ps, levels, s)|
  {
    hide Round;
    if i < |ps| {
      assert ps[..i + 1][..i] == ps[..i];
      UnresolvedPrefix(ps, i + 1, levels, s);
    }
  }

  lemma PatchStart(nodes: seq<Node>, js: seq<Jump>, levels: seq<Level>, s: nat)
    requires s < |levels| && Bound(nodes, js, s + 1)
    ensures Patched(nodes, nodes, Left(js, s + 1), 0, levels, s)
  {
    hide Left, Rounds;
    var ps := Left(js, s + 1);
    forall p | 0 <= p < |ps| ensures Holds(nodes, ps[p].node, GotoNode(0)) {
      var i := LeftFrom(js, s + 1, p);
      assert Holds(nodes, js[i].node, GotoNode(0));
    }
  }

  /** Searching the scopes as they stand at the end of block `s`. */
  lemma SearchIsRound(scopes: seq<Scope>, levels: seq<Level>, s: nat, name: Name, outer: seq<Scope>)
    requires |levels| == s + 1 && |outer| == |scopes| == s + 1 && Seen(outer, levels, levels[s].end)
    requires forall i :: 0 <= i <= s ==> scopes[i].labels == outer[i].labels
    ensures Search(LabelsOf(scopes[..s + 1]), name) == Round(levels, s, name)
  {
    assert levels[..s + 1] == levels && scopes[..s + 1] == scopes;
    assert LabelsOf(scopes) == SeenAt(levels, levels[s].end);
  }

  // ----- whole bodies -----

  lemma BodyNested(b: Block)
    ensures WellNested([] + [LevelOf(b, 0)])
  {
    LabelsSplit(b, |b|, 0);
    assert b[..|b|] == b;
  }

  lemma JumpOutcome(j: Jump)
    requires j.levels != [] && WellNested(j.levels)
    ensures Rounds(j.levels, 0, j.name) == Choice(j.levels, j.name)
    ensures HasLabel(j) <==> Choice(j.levels, j.name).Some?
  {
    hide Choice, Rounds, WellNested;
    RoundsIsChoice(j.levels, j.name);
    ChoiceIsLabel(j.levels, j.name);
  }

  lemma BodyLabels(b: Block, nodes: seq<Node>, i: nat)
    requires i < |BlockJumps(b, 0, [])|
    requires var j := BlockJumps(b, 0, [])[i];
             j.levels != [] && Rounds(j.levels, 0, j.name) == Choice(j.levels, j.name) && Choice(j.levels, j.name).Some?
    requires Bound(nodes, BlockJumps(b, 0, []), 0) && Marked(nodes, AllLabels(b, 0))
    ensures Lands(nodes, BlockJumps(b, 0, [])[i])
  {
    hide Choice, Rounds, Jumps, AllLabels;
    var j := BlockJumps(b, 0, [])[i];
    ChoiceIsLabel(j.levels, j.name);
    LabelsOfJumps(b, 0, [], AllLabels(b, 0));
    var k :| 0 <= k < |j.levels| && LabelRec(j.name, Choice(j.levels, j.name).value) in j.levels[k].labels;
    assert LabelRec(j.name, Choice(j.levels, j.name).value) in AllLabels(b, 0);
  }

  ghost predicate LabelsIn(levels: seq<Level>, all: seq<LabelRec>) {
    forall k, l :: 0 <= k < |levels| && l in levels[k].labels ==> l in all
  }

  lemma {:induction false} OwnLabels(b: Block, base: nat)
    ensures forall l :: l in Labels(b, base) ==> l in AllLabels(b, base)
    decreases |b|
  {
    if b != [] {
      OwnLabels(Init(b), base);
    }
  }

  /** The labels around a jump are labels of the body. */
  lemma {:induction false} LabelsOfJumps(b: Block, base: nat, outer: seq<Level>, all: seq<LabelRec>)
    requires LabelsIn(outer, all) && forall l :: l in AllLabels(b, base) ==> l in all
    ensures forall i :: 0 <= i < |BlockJumps(b, base, outer)| ==> LabelsIn(BlockJumps(b, base, outer)[i].levels, all)
    decreases b, 1
  {
    hide Labels, AllLabels, Jumps;
    OwnLabels(b, base);
    LabelsOfStmts(b, base, outer + [LevelOf(b, base)], all);
  }

  lemma {:induction false} LabelsOfStmts(b: Block, base: nat, levels: seq<Level>, all: seq<LabelRec>)
    requires LabelsIn(levels, all) && forall l :: l in AllLabels(b, base) ==> l in all
    ensures forall i :: 0 <= i < |Jumps(b, base, levels)| ==> LabelsIn(Jumps(b, base, levels)[i].levels, all)
    decreases b, 0
  {
    hide Labels, LabelsIn, Size, BlockJumps;
    if b != [] {
      var node := base + Size(Init(b));
      assert AllLabels(b, base) == AllLabels(Init(b), base) + StmtAllLabels(Last(b), node);
      LabelsOfStmts(Init(b), base, levels, all);
      var js := StmtJumps(Last(b), node, levels);
      if Last(b).Nested? {
        LabelsOfJumps(Last(b).body, node, levels, all);
        assert js == BlockJumps(Last(b).body, node, levels);
      } else if Last(b).GotoStmt? {
        assert js == [Jump(node, Last(b).name, levels)];
      }
      assert forall i :: 0 <= i < |js| ==> LabelsIn(js[i].levels, all);
      assert Jumps(b, base, levels) == Jumps(Init(b), base, levels) + js;
    }
  }
}
