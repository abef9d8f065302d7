/** What programs see of variables: declarations, loop variables, blocks, functions and closures,
    each followed by a lookup. */
module EnvLaws {
  import opened Core
  import opened Values
  import opened EnvSpec
  import opened EnvCells

  /** The slot `i` of the innermost frame is the first of this name. */
  predicate FirstSlot(a: Env, n: Name, i: nat) {
    a.frames != [] &&
    var vars := a.frames[|a.frames| - 1].vars;
    i < |vars| && vars[i].name == n && forall j :: 0 <= j < i ==> vars[j].name != n
  }

  predicate Unnamed(a: Env, n: Name) {
    a.frames != [] &&
    var vars := a.frames[|a.frames| - 1].vars;
    forall j :: 0 <= j < |vars| ==> vars[j].name != n
  }

  /** The value of the innermost frame's slot `i`. */
  function SlotValue(a: Env, i: nat): Value
    requires Sound(a) && a.frames != [] && i < |a.frames[|a.frames| - 1].vars|
  {
    assert IsSlot(a.frames, |a.frames| - 1, i);
    a.store[SlotLoc(a.frames, |a.frames| - 1, i)]
  }

  lemma FirstSlotIs(a: Env, n: Name)
    requires a.frames != []
    ensures match First(VarNames(TopFrame(a).vars), n)
            case Some(i) => FirstSlot(a, n, i)
            case None => Unnamed(a, n)
  {
    var names := VarNames(TopFrame(a).vars);
    var r := First(names, n);
    if r.Some? {
      forall j | 0 <= j < r.value ensures TopFrame(a).vars[j].name != n {
        assert names[..r.value][j] == names[j];
      }
    } else {
      forall j | 0 <= j < |names| ensures TopFrame(a).vars[j].name != n {
        assert names[j] in names;
      }
    }
  }

  /** The first slot of a name in the innermost frame answers. */
  lemma TopAnswers(a: Env, n: Name, i: nat)
    requires Sound(a) && FirstSlot(a, n, i)
    ensures Lookup(a, n) == Some(SlotValue(a, i))
  {
    hide Resolve;
    var names, t := VarNames(TopFrame(a).vars), |a.frames| - 1;
    assert n !in names[..i];
    FirstIs(names, n, i);
    ResolveStep(Shape(a.frames), ClosureNames(a.closures), n, t);
    assert Shape(a.frames)[t].names == names;
    assert WhereIs(a, n) == Slot(t, i) && IsSlot(a.frames, t, i);
  }

  /** Frames that differ only in a name that is not asked for resolve alike. */
  lemma {:induction false} ResolveSame(shape: seq<FrameShape>, shape': seq<FrameShape>, ups: seq<seq<Name>>, m: Name, f: nat)
    requires f <= |shape| == |shape'|
    requires forall g :: 0 <= g < f ==>
               shape[g].isFn == shape'[g].isFn && shape[g].closure == shape'[g].closure &&
               First(shape[g].names, m) == First(shape'[g].names, m)
    ensures Resolve(shape, ups, m, f) == Resolve(shape', ups, m, f)
    decreases f
  {
    hide First;
    if f > 0 {
      ResolveSame(shape, shape', ups, m, f - 1);
    }
  }

  lemma {:induction false} FirstSkips(names: seq<Name>, n: Name, m: Name)
    requires m != n
    ensures First(names + [n], m) == First(names, m)
  {
    if names == [] {
      assert ([] + [n])[1..] == [];
    } else {
      assert (names + [n])[1..] == names[1..] + [n];
      FirstSkips(names[1..], n, m);
    }
  }

  /** Two environments in which a name is resolved alike and has the same value. */
  lemma SameAnswer(a: Env, b: Env, m: Name)
    requires WhereIs(a, m) == WhereIs(b, m) && LocOf(a, m) == LocOf(b, m) && a.globals == b.globals
    requires LocOf(a, m).Some? ==>
               LocOf(a, m).value < |a.store| && LocOf(a, m).value < |b.store| &&
               a.store[LocOf(a, m).value] == b.store[LocOf(a, m).value]
    ensures Lookup(a, m) == Lookup(b, m)
  {
    hide WhereIs, LocOf, First;
  }

  // ----- declarations -----

  /** A name new to its block reads as the value it was declared with; a second declaration in the
      same block stays behind the first. */
  lemma DeclareThenGet(a: Env, n: Name, v: Value)
    requires Sound(a) && a.frames != []
    ensures Unnamed(a, n) ==> Lookup(Declare(a, n, v), n) == Some(v)
    ensures forall i: nat :: FirstSlot(a, n, i) ==> Lookup(Declare(a, n, v), n) == Some(SlotValue(a, i))
    ensures Lookup(Declare(a, n, v), n) == Some(v) <==> Unnamed(a, n) || exists i: nat :: FirstSlot(a, n, i) && SlotValue(a, i) == v
  {
    hide Lookup;
    var b := Declare(a, n, v);
    DeclareSound(a, n, v);
    FirstSlotIs(a, n);
    var vars := TopFrame(a).vars;
    if Unnamed(a, n) {
      assert FirstSlot(b, n, |vars|);
      TopAnswers(b, n, |vars|);
    } else {
      forall i: nat | FirstSlot(a, n, i) ensures Lookup(b, n) == Some(SlotValue(a, i)) {
        assert FirstSlot(b, n, i);
        TopAnswers(b, n, i);
        assert IsSlot(a.frames, |a.frames| - 1, i);
      }
    }
  }

  /** Setting a variable of the innermost block, or a fresh loop variable, is always seen. */
  lemma SetTopThenGet(a: Env, n: Name, v: Value)
    requires Sound(a) && a.frames != []
    ensures Lookup(SetTop(a, n, v), n) == Some(v)
    ensures Lookup(SetTopFresh(a, n, v), n) == Some(v)
  {
    hide Lookup, First;
    FirstSlotIs(a, n);
    DeclareThenGet(a, n, v);
    SetTopFreshSound(a, n, v);
    match First(VarNames(TopFrame(a).vars), n)
    case None =>
    case Some(i) =>
      var b, c := SetTop(a, n, v), SetTopFresh(a, n, v);
      assert IsSlot(a.frames, |a.frames| - 1, i);
      assert Sound(b);
      assert FirstSlot(b, n, i) && FirstSlot(c, n, i);
      TopAnswers(b, n, i);
      TopAnswers(c, n, i);
  }

  /** Names of other variables keep their answer. */
  lemma OthersKeep(a: Env, n: Name, v: Value, m: Name)
    requires Sound(a) && a.frames != [] && m != n
    ensures Lookup(Declare(a, n, v), m) == Lookup(a, m)
    ensures Lookup(SetTopFresh(a, n, v), m) == Lookup(a, m)
    ensures (forall i: nat :: FirstSlot(a, n, i) ==> LocOf(a, m) != Some(a.frames[|a.frames| - 1].vars[i].loc)) ==>
              Lookup(SetTop(a, n, v), m) == Lookup(a, m)
  {
    hide Lookup, First, Resolve;
    FirstSlotIs(a, n);
    LocOfExists(a, m);
    DeclaredResolve(a, n, v, m);
    FreshResolve(a, n, v, m);
    SetResolve(a, n, v, m);
    SameAnswer(a, Declare(a, n, v), m);
    SameAnswer(a, SetTopFresh(a, n, v), m);
    if forall i: nat :: FirstSlot(a, n, i) ==> LocOf(a, m) != Some(a.frames[|a.frames| - 1].vars[i].loc) {
      SameAnswer(a, SetTop(a, n, v), m);
    }
  }

  lemma DeclaredResolve(a: Env, n: Name, v: Value, m: Name)
    requires Sound(a) && a.frames != [] && m != n
    ensures var b := Declare(a, n, v); WhereIs(b, m) == WhereIs(a, m) && LocOf(b, m) == LocOf(a, m)
  {
    hide Resolve, First;
    var b := Declare(a, n, v);
    var names, t := VarNames(TopFrame(a).vars), |a.frames| - 1;
    assert VarNames(TopFrame(b).vars) == names + [n];
    FirstSkips(names, n, m);
    var shape, shape' := Shape(a.frames), Shape(b.frames);
    assert forall g :: 0 <= g < t ==> shape[g] == shape'[g];
    ResolveSame(shape, shape', ClosureNames(a.closures), m, |shape|);
  }

  lemma FreshResolve(a: Env, n: Name, v: Value, m: Name)
    requires Sound(a) && a.frames != [] && m != n
    ensures var c := SetTopFresh(a, n, v); WhereIs(c, m) == WhereIs(a, m) && LocOf(c, m) == LocOf(a, m)
  {
    hide Resolve, First, Declare;
    DeclaredResolve(a, n, v, m);
    var names := VarNames(TopFrame(a).vars);
    var r := First(names, n);
    if r.Some? {
      var c := SetTopFresh(a, n, v);
      assert VarNames(TopFrame(c).vars) == names;
      assert Shape(c.frames) == Shape(a.frames);
      NotThisSlot(a, n, r.value, m);
    }
  }

  lemma SetResolve(a: Env, n: Name, v: Value, m: Name)
    requires Sound(a) && a.frames != [] && m != n
    ensures var d := SetTop(a, n, v); WhereIs(d, m) == WhereIs(a, m) && LocOf(d, m) == LocOf(a, m)
  {
    hide Resolve, First, Declare;
    DeclaredResolve(a, n, v, m);
  }

  lemma NotThisSlot(a: Env, n: Name, i: nat, m: Name)
    requires a.frames != [] && m != n && i < |TopFrame(a).vars| && TopFrame(a).vars[i].name == n
    ensures WhereIs(a, m) != Slot(|a.frames| - 1, i)
  {
    hide Resolve;
  }

  // ----- blocks, functions, closures -----

  /** An inner block sees the variables around it. */
  lemma BlockSees(a: Env, c: Option<nat>, m: Name)
    requires Sound(a)
    ensures Lookup(PushFrame(a, false, c), m) == Lookup(a, m)
  {
    hide Lookup, Resolve, First;
    var b := PushFrame(a, false, c);
    PushedResolve(a, false, c, m);
    LocOfExists(a, m);
    SameAnswer(a, b, m);
  }

  lemma PushedResolve(a: Env, isFn: bool, c: Option<nat>, m: Name)
    ensures var b := PushFrame(a, isFn, c);
            Shape(b.frames)[..|a.frames|] == Shape(a.frames) &&
            Shape(b.frames)[|a.frames|] == FrameShape([], isFn, c) &&
            (!isFn ==> WhereIs(b, m) == WhereIs(a, m) && LocOf(b, m) == LocOf(a, m))
  {
    hide Resolve, First;
    var b, n := PushFrame(a, isFn, c), |a.frames|;
    var shape, shape', ups := Shape(a.frames), Shape(b.frames), ClosureNames(a.closures);
    assert VarNames([]) == [] && First([], m) == None by { NoNames(m); }
    assert shape'[..n] == shape;
    ResolveStep(shape', ups, m, n);
    PrefixResolves(shape, shape', ups, m, n);
  }

  lemma NoNames(m: Name)
    ensures First([], m) == None
  {}

  lemma {:induction false} PrefixResolves(shape: seq<FrameShape>, more: seq<FrameShape>, ups: seq<seq<Name>>, m: Name, f: nat)
    requires f <= |shape| <= |more| && more[..|shape|] == shape
    ensures Resolve(more, ups, m, f) == Resolve(shape, ups, m, f)
  {
    hide First;
    if f > 0 {
      assert more[..|shape|][f - 1] == more[f - 1];
      PrefixResolves(shape, more, ups, m, f - 1);
    }
  }

  /** A function without closure sees globals only, until it declares something. */
  lemma FunctionHides(a: Env, m: Name)
    ensures Lookup(PushFrame(a, true, None), m) ==
            match First(GlobalNames(a.globals), m) case Some(i) => Some(a.globals[i].value) case None => None
  {
    hide Resolve, First;
    var b := PushFrame(a, true, None);
    PushedResolve(a, true, None, m);
    NoNames(m);
    ResolveStep(Shape(b.frames), ClosureNames(b.closures), m, |a.frames|);
  }

  /** Leaving a block forgets what it declared and keeps the rest. */
  lemma BlockLeft(a: Env, isFn: bool, c: Option<nat>, n: Name, v: Value, m: Name)
    requires Sound(a)
    ensures Lookup(PopFrame(Declare(PushFrame(a, isFn, c), n, v)), m) == Lookup(a, m)
  {
    hide Lookup, Resolve, First;
    var b := PopFrame(Declare(PushFrame(a, isFn, c), n, v));
    assert b.frames == a.frames;
    LocOfExists(a, m);
    assert WhereIs(b, m) == WhereIs(a, m) && LocOf(b, m) == LocOf(a, m);
    SameAnswer(a, b, m);
  }

  /** A closure's function sees, under each captured name, the variable the name denoted where the
      closure was made; what it assigns is seen there too. */
  lemma ClosureSees(a: Env, names: seq<Name>, n: Name, v: Value)
    requires Sound(a) && n in names && LocOf(a, n).Some?
    ensures var b := PushFrame(MakeClosure(a, names), true, Some(|a.closures|));
            Lookup(b, n) == Lookup(a, n) && Lookup(SetVar(b, n, v), n) == Some(v) &&
            Lookup(PopFrame(SetVar(b, n, v)), n) == Some(v)
  {
    hide Resolve, First;
    var made := MakeClosure(a, names);
    var b := PushFrame(made, true, Some(|a.closures|));
    ClosureResolves(a, names, n);
    LocOfExists(a, n);
    var l := LocOf(a, n).value;
    assert SetVar(b, n, v) == b.(store := a.store[l := v]);
    var c := SetVar(b, n, v);
    assert WhereIs(c, n) == WhereIs(b, n) && LocOf(c, n) == LocOf(b, n);
    var d := PopFrame(c);
    assert d.frames == a.frames && d.closures == made.closures;
    MadeResolves(a, names, n);
    assert WhereIs(d, n) == WhereIs(made, n) && LocOf(d, n) == LocOf(made, n);
  }

  lemma ClosureResolves(a: Env, names: seq<Name>, n: Name)
    requires n in names
    ensures var b := PushFrame(MakeClosure(a, names), true, Some(|a.closures|));
            WhereIs(b, n).UpVal? && LocOf(b, n) == LocOf(a, n)
  {
    hide Resolve;
    var made := MakeClosure(a, names);
    var b := PushFrame(made, true, Some(|a.closures|));
    PushedResolve(made, true, Some(|a.closures|), n);
    NoNames(n);
    var ups := ClosureNames(b.closures);
    assert ups[|a.closures|] == names;
    ResolveStep(Shape(b.frames), ups, n, |a.frames|);
  }

  /** Making a closure moves no name. */
  lemma MadeResolves(a: Env, names: seq<Name>, m: Name)
    requires Sound(a) && LocOf(a, m).Some?
    ensures var made := MakeClosure(a, names);
            WhereIs(made, m) == WhereIs(a, m) && LocOf(made, m) == LocOf(a, m) && Lookup(made, m) == Lookup(a, m)
  {
    hide Resolve, First;
    var made := MakeClosure(a, names);
    MoreClosures(Shape(a.frames), ClosureNames(a.closures), ClosureNames(made.closures), m, |a.frames|);
  }

  lemma {:induction false} MoreClosures(shape: seq<FrameShape>, ups: seq<seq<Name>>, more: seq<seq<Name>>, m: Name, f: nat)
    requires f <= |shape| && |ups| <= |more| && more[..|ups|] == ups && Resolve(shape, ups, m, f) != Elsewhere
    ensures Resolve(shape, more, m, f) == Resolve(shape, ups, m, f)
    decreases f
  {
    hide First;
    ResolveStep(shape, ups, m, f - 1);
    ResolveStep(shape, more, m, f - 1);
    var fr := shape[f - 1];
    if First(fr.names, m).None? {
      if !fr.isFn {
        MoreClosures(shape, ups, more, m, f - 1);
      } else {
        assert more[..|ups|][fr.closure.value] == more[fr.closure.value];
      }
    }
  }

  // ----- in a run -----

  /** A lookup right behind a declaration, an assignment to the innermost block or a fresh loop
      variable, in a run from any state. */
  lemma GetAfter(a: Env, n: Name, v: Value)
    requires Sound(a) && a.frames != []
    ensures CanRun(a, [DeclareCmd(n, v), Get(n)]) && CanRun(a, [SetTopCmd(n, v), Get(n)]) && CanRun(a, [FreshCmd(n, v), Get(n)])
    ensures Unnamed(a, n) ==> RunOuts(a, [DeclareCmd(n, v), Get(n)]) == [None, Some(v)]
    ensures RunOuts(a, [SetTopCmd(n, v), Get(n)]) == [None, Some(v)]
    ensures RunOuts(a, [FreshCmd(n, v), Get(n)]) == [None, Some(v)]
  {
    hide Lookup, Declare, SetTop, SetTopFresh;
    DeclareThenGet(a, n, v);
    SetTopThenGet(a, n, v);
    TwoSteps(a, DeclareCmd(n, v), Get(n));
    TwoSteps(a, SetTopCmd(n, v), Get(n));
    TwoSteps(a, FreshCmd(n, v), Get(n));
  }

  lemma TwoSteps(a: Env, first: Cmd, second: Cmd)
    requires CanStep(a, first) && CanStep(EnvStep(a, first).0, second)
    ensures CanRun(a, [first, second])
    ensures RunOuts(a, [first, second]) == [EnvStep(a, first).1, EnvStep(EnvStep(a, first).0, second).1]
  {
    hide EnvStep, CanStep, CanRun, RunOuts;
    var b := EnvStep(a, first).0;
    assert [first, second][1..] == [second] && [second][1..] == [];
    RunStep(a, [first, second]);
    RunStep(b, [second]);
    RunNone(EnvStep(b, second).0);
  }

  /** The parameter of a function called: a new frame, a declaration, a lookup. */
  lemma ParameterSeen(a: Env, c: Option<nat>, n: Name, v: Value)
    requires Sound(a)
    ensures Lookup(Declare(PushFrame(a, true, c), n, v), n) == Some(v)
  {
    hide Lookup, Declare;
    var b := PushFrame(a, true, c);
    assert forall f, i | IsSlot(b.frames, f, i) :: IsSlot(a.frames, f, i) && SlotLoc(b.frames, f, i) == SlotLoc(a.frames, f, i);
    DeclareThenGet(b, n, v);
  }
}
