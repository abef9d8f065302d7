/** Variables as plain locations: the environment a closure semantics starts from. Every
    declared variable is a location of its own from the start; closures hold locations. */
module EnvSpec {
  import opened Core
  import opened Values

  type Name = bytes

  datatype Var = Var(name: Name, loc: nat)

  /** `closure` is the running closure of a function frame; block frames have none. */
  datatype Frame = Frame(vars: seq<Var>, isFn: bool, closure: Option<nat>)

  datatype Up = Up(name: Name, loc: Option<nat>)

  datatype Global = Global(name: Name, value: Value)

  datatype Env = Env(frames: seq<Frame>, store: seq<Value>, closures: seq<seq<Up>>, globals: seq<Global>)

  const MAX_GLOBALS: nat := 64

  // ----- names -----

  /** The first index of a name. */
  function First(names: seq<Name>, n: Name): (r: Option<nat>)
    ensures r.Some? ==> r.value < |names| && names[r.value] == n && n !in names[..r.value]
    ensures r.None? ==> n !in names
  {
    if names == [] then None
    else if names[0] == n then Some(0)
    else
      match First(names[1..], n)
      case None => None
      case Some(i) => Some(i + 1)
  }

  /** What name resolution looks at: names, frame kinds, and the names closures captured. */
  datatype FrameShape = FrameShape(names: seq<Name>, isFn: bool, closure: Option<nat>)

  datatype Where = Slot(f: nat, i: nat) | UpVal(c: nat, i: nat) | Elsewhere

  /** Frames are searched from the innermost down to the function's own frame, then the
      running closure's captured names. */
  function Resolve(shape: seq<FrameShape>, ups: seq<seq<Name>>, n: Name, f: nat): (w: Where)
    requires f <= |shape|
    ensures w.Slot? ==> w.f < f && w.i < |shape[w.f].names| && shape[w.f].names[w.i] == n
    ensures w.UpVal? ==> w.c < |ups| && w.i < |ups[w.c]| && ups[w.c][w.i] == n
  {
    if f == 0 then Elsewhere
    else
      var fr := shape[f - 1];
      match First(fr.names, n)
      case Some(i) => Slot(f - 1, i)
      case None =>
        if !fr.isFn then Resolve(shape, ups, n, f - 1)
        else if fr.closure.None? || fr.closure.value >= |ups| then Elsewhere
        else
          match First(ups[fr.closure.value], n)
          case Some(i) => UpVal(fr.closure.value, i)
          case None => Elsewhere
  }

  function VarNames(vars: seq<Var>): seq<Name> {
    seq(|vars|, i requires 0 <= i < |vars| => vars[i].name)
  }

  function UpNames(ups: seq<Up>): seq<Name> {
    seq(|ups|, i requires 0 <= i < |ups| => ups[i].name)
  }

  function Shape(frames: seq<Frame>): seq<FrameShape> {
    seq(|frames|, f requires 0 <= f < |frames| =>
      FrameShape(VarNames(frames[f].vars), frames[f].isFn, frames[f].closure))
  }

  function ClosureNames(closures: seq<seq<Up>>): seq<seq<Name>> {
    seq(|closures|, c requires 0 <= c < |closures| => UpNames(closures[c]))
  }

  function WhereIs(a: Env, n: Name): (w: Where)
    ensures w.Slot? ==> w.f < |a.frames| && w.i < |a.frames[w.f].vars| && a.frames[w.f].vars[w.i].name == n
    ensures w.UpVal? ==> w.c < |a.closures| && w.i < |a.closures[w.c]| && a.closures[w.c][w.i].name == n
  {
    Resolve(Shape(a.frames), ClosureNames(a.closures), n, |a.frames|)
  }

  /** The location a name denotes in the running function, if it denotes one. */
  function LocOf(a: Env, n: Name): Option<nat> {
    match WhereIs(a, n)
    case Slot(f, i) => Some(a.frames[f].vars[i].loc)
    case UpVal(c, i) => a.closures[c][i].loc
    case Elsewhere => None
  }

  // ----- operations -----

  predicate IsSlot(frames: seq<Frame>, f: int, i: int) {
    0 <= f < |frames| && 0 <= i < |frames[f].vars|
  }

  function SlotLoc(frames: seq<Frame>, f: nat, i: nat): nat
    requires IsSlot(frames, f, i)
  {
    frames[f].vars[i].loc
  }

  /** Every location in use exists, and no two variables share one. */
  ghost predicate Sound(a: Env) {
    (forall f, i | IsSlot(a.frames, f, i) :: SlotLoc(a.frames, f, i) < |a.store|) &&
    (forall c, i :: 0 <= c < |a.closures| && 0 <= i < |a.closures[c]| && a.closures[c][i].loc.Some? ==>
       a.closures[c][i].loc.value < |a.store|) &&
    (forall f, i, g, j | IsSlot(a.frames, f, i) && IsSlot(a.frames, g, j) && (f != g || i != j) ::
       SlotLoc(a.frames, f, i) != SlotLoc(a.frames, g, j))
  }

  function Store(a: Env, loc: nat, v: Value): Env {
    if loc < |a.store| then a.(store := a.store[loc := v]) else a
  }

  function TopFrame(a: Env): Frame
    requires a.frames != []
  {
    a.frames[|a.frames| - 1]
  }

  function WithTop(a: Env, fr: Frame): Env
    requires a.frames != []
  {
    a.(frames := a.frames[|a.frames| - 1 := fr])
  }

  /** A new variable at a new location. */
  function Declare(a: Env, n: Name, v: Value): Env
    requires a.frames != []
  {
    var top := TopFrame(a);
    WithTop(a, top.(vars := top.vars + [Var(n, |a.store|)])).(store := a.store + [v])
  }

  function SetTop(a: Env, n: Name, v: Value): Env
    requires a.frames != []
  {
    match First(VarNames(TopFrame(a).vars), n)
    case Some(i) => Store(a, TopFrame(a).vars[i].loc, v)
    case None => Declare(a, n, v)
  }

  /** The loop variable becomes a new variable: its old location is left to whoever holds it. */
  function SetTopFresh(a: Env, n: Name, v: Value): Env
    requires a.frames != []
  {
    match First(VarNames(TopFrame(a).vars), n)
    case Some(i) =>
      var top := TopFrame(a);
      WithTop(a, top.(vars := top.vars[i := Var(n, |a.store|)])).(store := a.store + [v])
    case None => Declare(a, n, v)
  }

  function SetGlobal(gs: seq<Global>, n: Name, v: Value): seq<Global> {
    match First(GlobalNames(gs), n)
    case Some(i) => gs[i := Global(n, v)]
    case None => if |gs| < MAX_GLOBALS then gs + [Global(n, v)] else gs
  }

  function GlobalNames(gs: seq<Global>): seq<Name> {
    seq(|gs|, i requires 0 <= i < |gs| => gs[i].name)
  }

  /** Assigning to a captured name without a location is accepted and lost. */
  function Assign(a: Env, n: Name, v: Value): (Env, bool) {
    match WhereIs(a, n)
    case Elsewhere => (a, false)
    case _ => (if LocOf(a, n).Some? then Store(a, LocOf(a, n).value, v) else a, true)
  }

  /** An assignment to a name: a variable's if the name resolves, else a global's. */
  function SetVar(a: Env, n: Name, v: Value): Env {
    var (a', found) := Assign(a, n, v);
    if found then a' else a.(globals := SetGlobal(a.globals, n, v))
  }

  function Lookup(a: Env, n: Name): Option<Value> {
    match WhereIs(a, n)
    case Elsewhere =>
      (match First(GlobalNames(a.globals), n)
       case Some(i) => Some(a.globals[i].value)
       case None => None)
    case _ =>
      var loc := LocOf(a, n);
      Some(if loc.Some? && loc.value < |a.store| then a.store[loc.value] else Nil)
  }

  /** A closure captures the locations its names denote now. */
  function Capture(a: Env, names: seq<Name>): seq<Up> {
    seq(|names|, i requires 0 <= i < |names| => Up(names[i], LocOf(a, names[i])))
  }

  function MakeClosure(a: Env, names: seq<Name>): Env {
    a.(closures := a.closures + [Capture(a, names)])
  }

  function PushFrame(a: Env, isFn: bool, closure: Option<nat>): Env {
    a.(frames := a.frames + [Frame([], isFn, closure)])
  }

  function PopFrame(a: Env): Env {
    if a.frames == [] then a else a.(frames := a.frames[..|a.frames| - 1])
  }

  // ----- what the operations mean -----

  /** A variable assigned is what the next lookup of its name sees, unless the name was captured
      without a location (then it stays nil) or is a new global too many (then it stays unset). */
  lemma SetThenGet(a: Env, n: Name, v: Value)
    requires Sound(a)
    ensures Lookup(SetVar(a, n, v), n) == Some(v) <==>
            if WhereIs(a, n) == Elsewhere then n in GlobalNames(a.globals) || |a.globals| < MAX_GLOBALS
            else LocOf(a, n).Some? || v == Nil
    ensures Lookup(SetVar(a, n, v), n) != Some(v) ==>
              Lookup(SetVar(a, n, v), n) == if WhereIs(a, n) == Elsewhere then None else Some(Nil)
  {
    hide Resolve;
    LocOfExists(a, n);
    var a' := SetVar(a, n, v);
    assert a'.frames == a.frames && a'.closures == a.closures;
    assert WhereIs(a', n) == WhereIs(a, n) && LocOf(a', n) == LocOf(a, n);
    if WhereIs(a, n) == Elsewhere {
      GlobalSet(a.globals, n, v);
    }
  }

  lemma GlobalSet(gs: seq<Global>, n: Name, v: Value)
    ensures var i := First(GlobalNames(SetGlobal(gs, n, v)), n);
            if n in GlobalNames(gs) || |gs| < MAX_GLOBALS then i.Some? && SetGlobal(gs, n, v)[i.value].value == v
            else i.None?
  {
    var names := GlobalNames(gs);
    match First(names, n)
    case Some(i) => assert GlobalNames(gs[i := Global(n, v)]) == names;
    case None =>
      FirstOfSnoc(names, n);
      assert GlobalNames(gs + [Global(n, v)]) == names + [n];
  }

  /** A captured name without a location hides the global of that name: it reads as nil, and
      assigning it changes nothing. */
  lemma CapturedWithoutCell(n: Name, v: Value, w: Value)
    ensures var a := Env([Frame([], true, Some(0))], [], [[Up(n, None)]], [Global(n, w)]);
            Sound(a) && Lookup(a, n) == Some(Nil) && SetVar(a, n, v) == a
  {
    var a := Env([Frame([], true, Some(0))], [], [[Up(n, None)]], [Global(n, w)]);
    assert VarNames([]) == [] && UpNames(a.closures[0]) == [n];
    assert First([], n) == None && First([n], n) == Some(0);
    assert Shape(a.frames)[0] == FrameShape([], true, Some(0)) && ClosureNames(a.closures)[0] == [n];
    assert WhereIs(a, n) == UpVal(0, 0);
  }

  /** 64 globals, named by one byte each. */
  function ManyGlobals(): seq<Global> {
    seq(MAX_GLOBALS, i requires 0 <= i < MAX_GLOBALS => Global([i], Nil))
  }

  /** Beside 64 globals another one is dropped. */
  lemma SixtyFifthGlobal(v: Value)
    ensures var a := Env([], [], [], ManyGlobals());
            Sound(a) && SetVar(a, [64], v) == a && Lookup(a, [64]) == None
  {
    var a := Env([], [], [], ManyGlobals());
    assert WhereIs(a, [64]) == Elsewhere;
    forall k | 0 <= k < MAX_GLOBALS ensures GlobalNames(a.globals)[k] != [64] {
      assert GlobalNames(a.globals)[k] == [k];
      assert [k][0] != [64][0];
    }
  }

  lemma LocOfExists(a: Env, n: Name)
    requires Sound(a)
    ensures LocOf(a, n).Some? ==> LocOf(a, n).value < |a.store|
  {
    hide Resolve;
    var w := WhereIs(a, n);
    if w.Slot? {
      assert IsSlot(a.frames, w.f, w.i);
    }
  }

  /** Assignment changes what a name sees only if the name denotes the same location. */
  lemma AssignElsewhereUnseen(a: Env, n: Name, v: Value, m: Name)
    requires LocOf(a, m) != LocOf(a, n) || LocOf(a, n).None?
    ensures Lookup(Assign(a, n, v).0, m) == Lookup(a, m)
  {
    hide Resolve, First;
    var a' := Assign(a, n, v).0;
    assert a'.frames == a.frames && a'.closures == a.closures;
    assert WhereIs(a', m) == WhereIs(a, m) && LocOf(a', m) == LocOf(a, m);
  }

  /** A fresh loop variable leaves every captured variable's value alone, and is itself a
      variable no closure holds. */
  lemma FreshLeavesCaptured(a: Env, n: Name, v: Value, c: nat, i: nat)
    requires Sound(a) && a.frames != [] && c < |a.closures| && i < |a.closures[c]| && a.closures[c][i].loc.Some?
    ensures var a' := SetTopFresh(a, n, v);
            var loc := a.closures[c][i].loc.value;
            a'.closures == a.closures && a'.store[loc] == a.store[loc] &&
            First(VarNames(TopFrame(a').vars), n).Some? &&
            TopFrame(a').vars[First(VarNames(TopFrame(a').vars), n).value].loc != loc
  {
    var a' := SetTopFresh(a, n, v);
    var vars, vars' := TopFrame(a).vars, TopFrame(a').vars;
    match First(VarNames(vars), n)
    case Some(k) =>
      assert VarNames(vars') == VarNames(vars);
    case None =>
      assert VarNames(vars') == VarNames(vars) + [n];
      FirstOfSnoc(VarNames(vars), n);
  }

  lemma {:induction false} FirstOfSnoc(names: seq<Name>, n: Name)
    ensures First(names + [n], n) == if First(names, n).Some? then First(names, n) else Some(|names|)
  {
    if names != [] {
      assert (names + [n])[1..] == names[1..] + [n];
      FirstOfSnoc(names[1..], n);
    }
  }

  /** Putting one variable at a location of its own, and leaving the others where they were. */
  lemma FreshVarSound(a: Env, vars: seq<Var>, k: nat, v: Value)
    requires Sound(a) && a.frames != [] && k < |vars| && vars[k].loc == |a.store|
    requires |vars| <= |TopFrame(a).vars| + 1
    requires forall i :: 0 <= i < |vars| && i != k ==> i < |TopFrame(a).vars| && vars[i].loc == TopFrame(a).vars[i].loc
    ensures Sound(WithTop(a, TopFrame(a).(vars := vars)).(store := a.store + [v]))
  {
    var a' := WithTop(a, TopFrame(a).(vars := vars)).(store := a.store + [v]);
    var t := |a.frames| - 1;
    forall f, i | IsSlot(a'.frames, f, i)
      ensures if f == t && i == k then SlotLoc(a'.frames, f, i) == |a.store|
              else IsSlot(a.frames, f, i) && SlotLoc(a'.frames, f, i) == SlotLoc(a.frames, f, i) < |a.store|
    {
      if f == t && i != k {
        assert vars[i].loc == TopFrame(a).vars[i].loc;
        assert IsSlot(a.frames, f, i);
      } else if f != t {
        assert IsSlot(a.frames, f, i);
      }
    }
  }

  lemma DeclareSound(a: Env, n: Name, v: Value)
    requires Sound(a) && a.frames != []
    ensures Sound(Declare(a, n, v))
  {
    var vars := TopFrame(a).vars;
    FreshVarSound(a, vars + [Var(n, |a.store|)], |vars|, v);
  }

  lemma SetTopFreshSound(a: Env, n: Name, v: Value)
    requires Sound(a) && a.frames != []
    ensures Sound(SetTopFresh(a, n, v))
  {
    var vars := TopFrame(a).vars;
    match First(VarNames(vars), n)
    case Some(i) => FreshVarSound(a, vars[i := Var(n, |a.store|)], i, v);
    case None => DeclareSound(a, n, v);
  }

  lemma MakeClosureSound(a: Env, names: seq<Name>)
    requires Sound(a)
    ensures Sound(MakeClosure(a, names))
  {
    var a' := MakeClosure(a, names);
    forall c, i | 0 <= c < |a'.closures| && 0 <= i < |a'.closures[c]| && a'.closures[c][i].loc.Some?
      ensures a'.closures[c][i].loc.value < |a'.store|
    {
      if c == |a.closures| {
        assert a'.closures[c][i] == Up(names[i], LocOf(a, names[i]));
        LocOfExists(a, names[i]);
      }
    }
  }
}
