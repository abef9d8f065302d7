/** Frames, locals and closure cells as the interpreter keeps them. A local lives in its slot
    until a closure captures it; then it moves to a cell. The plain environment of EnvSpec is
    carried along, and `Valid` says how slots and cells represent it. */
module EnvCells {
  import opened Core
  import opened Values
  import opened EnvSpec

  const MAX_FRAMES: nat := 16
  const MAX_LOCALS: nat := 16
  const MAX_CELLS: nat := 64
  const MAX_CLOSURES: nat := 32

  datatype Local = Local(name: Name, value: Value, cell: Option<nat>)

  datatype LFrame = LFrame(locals: seq<Local>, isFn: bool, closure: Option<nat>)

  datatype UpEntry = UpEntry(name: Name, cell: Option<nat>)

  datatype Error = NoScope | TooManyFrames | TooManyLocals | TooManyCells | TooManyClosures

  // ----- representation -----

  /** An unboxed local holds its variable's value, and no cell stands for that variable; a
      boxed one names the cell that stands for it. */
  ghost predicate RelLocal(l: Local, v: Var, store: seq<Value>, at: seq<nat>) {
    l.name == v.name && v.loc < |store| &&
    match l.cell
    case None => store[v.loc] == l.value && v.loc !in at
    case Some(c) => c < |at| && at[c] == v.loc
  }

  ghost predicate RelFrame(l: LFrame, fr: Frame, store: seq<Value>, at: seq<nat>) {
    l.isFn == fr.isFn && l.closure == fr.closure && |l.locals| == |fr.vars| &&
    forall i :: 0 <= i < |l.locals| ==> RelLocal(l.locals[i], fr.vars[i], store, at)
  }

  ghost predicate RelUp(u: UpEntry, v: Up, at: seq<nat>) {
    u.name == v.name &&
    match u.cell
    case None => v.loc == None
    case Some(c) => c < |at| && v.loc == Some(at[c])
  }

  ghost predicate RelUps(us: seq<UpEntry>, vs: seq<Up>, at: seq<nat>) {
    |us| == |vs| && forall i :: 0 <= i < |us| ==> RelUp(us[i], vs[i], at)
  }

  /** Cell `c` stands for location `at[c]`; no two cells stand for the same one. */
  ghost predicate RelCells(cells: seq<Value>, store: seq<Value>, at: seq<nat>) {
    |at| == |cells| &&
    (forall c :: 0 <= c < |at| ==> at[c] < |store| && store[at[c]] == cells[c]) &&
    (forall c, d :: 0 <= c < d < |at| ==> at[c] != at[d])
  }

  ghost predicate RelFrames(ls: seq<LFrame>, fs: seq<Frame>, store: seq<Value>, at: seq<nat>) {
    |ls| == |fs| && forall f :: 0 <= f < |ls| ==> RelFrame(ls[f], fs[f], store, at)
  }

  ghost predicate RelClosures(us: seq<seq<UpEntry>>, vs: seq<seq<Up>>, at: seq<nat>) {
    |us| == |vs| && forall c :: 0 <= c < |us| ==> RelUps(us[c], vs[c], at)
  }

  // ----- names -----

  function LocalNames(locals: seq<Local>): seq<Name> {
    seq(|locals|, i requires 0 <= i < |locals| => locals[i].name)
  }

  function EntryNames(ups: seq<UpEntry>): seq<Name> {
    seq(|ups|, i requires 0 <= i < |ups| => ups[i].name)
  }

  function LShape(frames: seq<LFrame>): seq<FrameShape> {
    seq(|frames|, f requires 0 <= f < |frames| =>
      FrameShape(LocalNames(frames[f].locals), frames[f].isFn, frames[f].closure))
  }

  function LClosureNames(closures: seq<seq<UpEntry>>): seq<seq<Name>> {
    seq(|closures|, c requires 0 <= c < |closures| => EntryNames(closures[c]))
  }

  lemma SameShape(ls: seq<LFrame>, us: seq<seq<UpEntry>>, a: Env, at: seq<nat>)
    requires RelFrames(ls, a.frames, a.store, at) && RelClosures(us, a.closures, at)
    ensures |ls| == |a.frames| && LShape(ls) == Shape(a.frames) && LClosureNames(us) == ClosureNames(a.closures)
    ensures forall f :: 0 <= f < |ls| ==> LocalNames(ls[f].locals) == VarNames(a.frames[f].vars)
  {
    forall f | 0 <= f < |ls| ensures LocalNames(ls[f].locals) == VarNames(a.frames[f].vars) {
      assert RelFrame(ls[f], a.frames[f], a.store, at);
    }
    forall c | 0 <= c < |us| ensures EntryNames(us[c]) == UpNames(a.closures[c]) {
      assert RelUps(us[c], a.closures[c], at);
    }
  }

  lemma {:induction false} FirstIs(names: seq<Name>, n: Name, i: nat)
    requires i < |names| && names[i] == n && n !in names[..i]
    ensures First(names, n) == Some(i)
    decreases i
  {
    if i > 0 {
      assert names[0] in names[..i];
      forall m | m in names[1..][..i - 1] ensures m in names[..i] {
        var k :| 0 <= k < i - 1 && names[1..][..i - 1][k] == m;
        assert names[..i][k + 1] == m;
      }
      FirstIs(names[1..], n, i - 1);
    }
  }

  lemma {:induction false} FirstIsNone(names: seq<Name>, n: Name)
    requires n !in names
    ensures First(names, n) == None
  {
    if names != [] {
      assert names[0] in names;
      FirstIsNone(names[1..], n);
    }
  }

  method FirstLocal(locals: seq<Local>, n: Name) returns (r: Option<nat>)
    ensures r == First(LocalNames(locals), n)
  {
    ghost var names := LocalNames(locals);
    for i := 0 to |locals|
      invariant n !in names[..i]
    {
      if locals[i].name == n {
        FirstIs(names, n, i);
        return Some(i);
      }
      assert names[..i + 1] == names[..i] + [names[i]];
    }
    assert names[..|locals|] == names;
    FirstIsNone(names, n);
    return None;
  }

  method FirstEntry(ups: seq<UpEntry>, n: Name) returns (r: Option<nat>)
    ensures r == First(EntryNames(ups), n)
  {
    ghost var names := EntryNames(ups);
    for i := 0 to |ups|
      invariant n !in names[..i]
    {
      if ups[i].name == n {
        FirstIs(names, n, i);
        return Some(i);
      }
      assert names[..i + 1] == names[..i] + [names[i]];
    }
    assert names[..|ups|] == names;
    FirstIsNone(names, n);
    return None;
  }

  // ----- how the representation changes -----

  /** New locations do not disturb what is represented. */
  lemma GrowStore(ls: seq<LFrame>, cells: seq<Value>, a: Env, at: seq<nat>, v: Value)
    requires RelFrames(ls, a.frames, a.store, at) && RelCells(cells, a.store, at)
    ensures RelFrames(ls, a.frames, a.store + [v], at) && RelCells(cells, a.store + [v], at)
    ensures |a.store| !in at
  {
    forall f | 0 <= f < |ls| ensures RelFrame(ls[f], a.frames[f], a.store + [v], at) {
      assert RelFrame(ls[f], a.frames[f], a.store, at);
    }
  }

  /** A new cell for a location no unboxed local uses. */
  lemma GrowCells(ls: seq<LFrame>, us: seq<seq<UpEntry>>, cells: seq<Value>, a: Env, at: seq<nat>, loc: nat)
    requires RelFrames(ls, a.frames, a.store, at) && RelClosures(us, a.closures, at) && RelCells(cells, a.store, at)
    requires loc < |a.store| && loc !in at
    requires forall f, i | IsSlot(a.frames, f, i) ::
               f < |ls| && i < |ls[f].locals| && ls[f].locals[i].cell.None? ==> SlotLoc(a.frames, f, i) != loc
    ensures RelFrames(ls, a.frames, a.store, at + [loc]) && RelClosures(us, a.closures, at + [loc])
    ensures RelCells(cells + [a.store[loc]], a.store, at + [loc])
  {
    var at' := at + [loc];
    forall f | 0 <= f < |ls| ensures RelFrame(ls[f], a.frames[f], a.store, at') {
      assert RelFrame(ls[f], a.frames[f], a.store, at);
      forall i | 0 <= i < |ls[f].locals| ensures RelLocal(ls[f].locals[i], a.frames[f].vars[i], a.store, at') {
        assert RelLocal(ls[f].locals[i], a.frames[f].vars[i], a.store, at);
        assert IsSlot(a.frames, f, i);
      }
    }
    forall c | 0 <= c < |us| ensures RelUps(us[c], a.closures[c], at') {
      assert RelUps(us[c], a.closures[c], at);
      forall i | 0 <= i < |us[c]| ensures RelUp(us[c][i], a.closures[c][i], at') {
        assert RelUp(us[c][i], a.closures[c][i], at);
      }
    }
  }

  /** One slot replaced. */
  lemma ReplaceSlot(ls: seq<LFrame>, fs: seq<Frame>, store: seq<Value>, at: seq<nat>, f: nat, i: nat, l: Local, v: Var)
    requires f < |ls| == |fs| && i < |ls[f].locals| == |fs[f].vars|
    requires ls[f].isFn == fs[f].isFn && ls[f].closure == fs[f].closure
    requires forall g :: 0 <= g < |ls| && g != f ==> RelFrame(ls[g], fs[g], store, at)
    requires forall j :: 0 <= j < |ls[f].locals| && j != i ==> RelLocal(ls[f].locals[j], fs[f].vars[j], store, at)
    requires RelLocal(l, v, store, at)
    ensures RelFrames(ls[f := ls[f].(locals := ls[f].locals[i := l])],
                      fs[f := fs[f].(vars := fs[f].vars[i := v])], store, at)
  {
    var ls' := ls[f := ls[f].(locals := ls[f].locals[i := l])];
    var fs' := fs[f := fs[f].(vars := fs[f].vars[i := v])];
    forall g | 0 <= g < |ls'| ensures RelFrame(ls'[g], fs'[g], store, at) {
      if g != f {
        assert RelFrame(ls[g], fs[g], store, at);
      }
    }
  }

  /** Writing a cell is writing its location. */
  lemma WriteCell(ls: seq<LFrame>, cells: seq<Value>, a: Env, at: seq<nat>, c: nat, v: Value)
    requires RelFrames(ls, a.frames, a.store, at) && RelCells(cells, a.store, at) && c < |at|
    ensures RelFrames(ls, a.frames, a.store[at[c] := v], at)
    ensures RelCells(cells[c := v], a.store[at[c] := v], at)
  {
    var store' := a.store[at[c] := v];
    forall f | 0 <= f < |ls| ensures RelFrame(ls[f], a.frames[f], store', at) {
      assert RelFrame(ls[f], a.frames[f], a.store, at);
      forall i | 0 <= i < |ls[f].locals| ensures RelLocal(ls[f].locals[i], a.frames[f].vars[i], store', at) {
        assert RelLocal(ls[f].locals[i], a.frames[f].vars[i], a.store, at);
      }
    }
  }

  /** Writing an unboxed slot is writing its location. */
  lemma WriteSlot(ls: seq<LFrame>, cells: seq<Value>, a: Env, at: seq<nat>, f: nat, i: nat, v: Value)
    requires RelFrames(ls, a.frames, a.store, at) && RelCells(cells, a.store, at) && Sound(a)
    requires f < |ls| && i < |ls[f].locals| && ls[f].locals[i].cell.None?
    ensures IsSlot(a.frames, f, i) && SlotLoc(a.frames, f, i) < |a.store|
    ensures var store' := a.store[SlotLoc(a.frames, f, i) := v];
            var l := ls[f].locals[i];
            RelFrames(ls[f := ls[f].(locals := ls[f].locals[i := l.(value := v)])], a.frames, store', at) &&
            RelCells(cells, store', at)
  {
    assert RelFrame(ls[f], a.frames[f], a.store, at);
    assert RelLocal(ls[f].locals[i], a.frames[f].vars[i], a.store, at);
    assert IsSlot(a.frames, f, i);
    var loc := SlotLoc(a.frames, f, i);
    var store' := a.store[loc := v];
    forall g, j | 0 <= g < |ls| && 0 <= j < |ls[g].locals| && (g != f || j != i)
      ensures j < |a.frames[g].vars| && RelLocal(ls[g].locals[j], a.frames[g].vars[j], store', at)
    {
      assert RelFrame(ls[g], a.frames[g], a.store, at);
      assert RelLocal(ls[g].locals[j], a.frames[g].vars[j], a.store, at);
      assert IsSlot(a.frames, g, j);
      assert SlotLoc(a.frames, g, j) != SlotLoc(a.frames, f, i);
    }
    forall g | 0 <= g < |ls| && g != f ensures RelFrame(ls[g], a.frames[g], store', at) {
      assert RelFrame(ls[g], a.frames[g], a.store, at);
    }
    ReplaceSlot(ls, a.frames, store', at, f, i, ls[f].locals[i].(value := v), a.frames[f].vars[i]);
    assert a.frames[f].vars[i := a.frames[f].vars[i]] == a.frames[f].vars;
    assert a.frames[f := a.frames[f]] == a.frames;
  }

  /** Boxing a slot: its value moves to a new cell; no variable changes. */
  lemma BoxSlot(ls: seq<LFrame>, us: seq<seq<UpEntry>>, cells: seq<Value>, a: Env, at: seq<nat>, f: nat, i: nat)
    requires RelFrames(ls, a.frames, a.store, at) && RelClosures(us, a.closures, at) && RelCells(cells, a.store, at)
    requires Sound(a) && f < |ls| && i < |ls[f].locals| && ls[f].locals[i].cell.None?
    ensures IsSlot(a.frames, f, i)
    ensures var at' := at + [SlotLoc(a.frames, f, i)];
            var l := ls[f].locals[i];
            RelFrames(ls[f := ls[f].(locals := ls[f].locals[i := l.(cell := Some(|cells|))])], a.frames, a.store, at') &&
            RelClosures(us, a.closures, at') && RelCells(cells + [l.value], a.store, at')
  {
    assert RelFrame(ls[f], a.frames[f], a.store, at);
    assert RelLocal(ls[f].locals[i], a.frames[f].vars[i], a.store, at);
    assert IsSlot(a.frames, f, i);
    var loc := SlotLoc(a.frames, f, i);
    var at' := at + [loc];
    forall g, j | 0 <= g < |ls| && 0 <= j < |ls[g].locals| && (g != f || j != i)
      ensures j < |a.frames[g].vars| && RelLocal(ls[g].locals[j], a.frames[g].vars[j], a.store, at')
    {
      assert RelFrame(ls[g], a.frames[g], a.store, at);
      assert RelLocal(ls[g].locals[j], a.frames[g].vars[j], a.store, at);
      assert IsSlot(a.frames, g, j);
      assert SlotLoc(a.frames, g, j) != SlotLoc(a.frames, f, i);
    }
    forall g | 0 <= g < |ls| && g != f ensures RelFrame(ls[g], a.frames[g], a.store, at') {
      assert RelFrame(ls[g], a.frames[g], a.store, at);
    }
    ReplaceSlot(ls, a.frames, a.store, at', f, i, ls[f].locals[i].(cell := Some(|cells|)), a.frames[f].vars[i]);
    assert a.frames[f].vars[i := a.frames[f].vars[i]] == a.frames[f].vars;
    assert a.frames[f := a.frames[f]] == a.frames;
    forall c | 0 <= c < |us| ensures RelUps(us[c], a.closures[c], at') {
      assert RelUps(us[c], a.closures[c], at);
      forall k | 0 <= k < |us[c]| ensures RelUp(us[c][k], a.closures[c][k], at') {
        assert RelUp(us[c][k], a.closures[c][k], at);
      }
    }
  }

  /** A slot in the top frame, replaced or added. */
  lemma TopSlot(ls: seq<LFrame>, fs: seq<Frame>, store: seq<Value>, at: seq<nat>, i: nat, l: Local, v: Var)
    requires RelFrames(ls, fs, store, at) && ls != [] && i <= |ls[|ls| - 1].locals|
    requires RelLocal(l, v, store, at)
    ensures var t := |ls| - 1;
            var locals, vars := ls[t].locals, fs[t].vars;
            |locals| == |vars| &&
            RelFrames(ls[t := ls[t].(locals := if i < |locals| then locals[i := l] else locals + [l])],
                      fs[t := fs[t].(vars := if i < |vars| then vars[i := v] else vars + [v])], store, at)
  {
    var t := |ls| - 1;
    assert RelFrame(ls[t], fs[t], store, at);
    var ls' := ls[t := ls[t].(locals := if i < |ls[t].locals| then ls[t].locals[i := l] else ls[t].locals + [l])];
    var fs' := fs[t := fs[t].(vars := if i < |fs[t].vars| then fs[t].vars[i := v] else fs[t].vars + [v])];
    forall g | 0 <= g < |ls'| ensures RelFrame(ls'[g], fs'[g], store, at) {
      assert RelFrame(ls[g], fs[g], store, at);
    }
  }

  lemma ResolveStart(shape: seq<FrameShape>, ups: seq<seq<Name>>, n: Name)
    ensures Resolve(shape, ups, n, 0) == Elsewhere
  {}

  lemma ResolveStep(shape: seq<FrameShape>, ups: seq<seq<Name>>, n: Name, f: nat)
    requires f < |shape|
    ensures Resolve(shape, ups, n, f + 1) ==
            var fr := shape[f];
            match First(fr.names, n)
            case Some(i) => Slot(f, i)
            case None =>
              if !fr.isFn then Resolve(shape, ups, n, f)
              else if fr.closure.None? || fr.closure.value >= |ups| then Elsewhere
              else
                match First(ups[fr.closure.value], n)
                case Some(i) => UpVal(fr.closure.value, i)
                case None => Elsewhere
  {
    hide First;
  }

  lemma FrameAt(ls: seq<LFrame>, us: seq<seq<UpEntry>>, a: Env, at: seq<nat>, f: nat)
    requires f < |ls| && RelFrames(ls, a.frames, a.store, at)
    ensures |LShape(ls)| == |ls| && LShape(ls)[f] == FrameShape(LocalNames(ls[f].locals), ls[f].isFn, ls[f].closure)
    ensures |LClosureNames(us)| == |us|
    ensures forall c :: 0 <= c < |us| ==> LClosureNames(us)[c] == EntryNames(us[c])
  {}

  lemma SlotAt(ls: seq<LFrame>, a: Env, at: seq<nat>, n: Name, f: nat, i: nat)
    requires f < |ls| && RelFrames(ls, a.frames, a.store, at) && Some(i) == First(LocalNames(ls[f].locals), n)
    ensures i < |ls[f].locals| && IsSlot(a.frames, f, i)
    ensures RelLocal(ls[f].locals[i], a.frames[f].vars[i], a.store, at)
  {
    hide RelLocal, First;
    assert RelFrame(ls[f], a.frames[f], a.store, at);
    NamesOfLocals(ls[f].locals);
  }

  lemma UpAt(us: seq<seq<UpEntry>>, a: Env, at: seq<nat>, n: Name, c: nat, i: nat)
    requires c < |us| && RelClosures(us, a.closures, at) && Some(i) == First(EntryNames(us[c]), n)
    ensures i < |us[c]| && c < |a.closures| && i < |a.closures[c]|
    ensures RelUp(us[c][i], a.closures[c][i], at)
  {
    hide RelUp, First;
    assert RelUps(us[c], a.closures[c], at);
    assert |EntryNames(us[c])| == |us[c]|;
  }

  lemma NamesOfLocals(locals: seq<Local>)
    ensures |LocalNames(locals)| == |locals|
    ensures forall i :: 0 <= i < |locals| ==> LocalNames(locals)[i] == locals[i].name
  {}

  lemma FreshKeeps(a: Env, n: Name, v: Value)
    requires a.frames != []
    ensures var a' := SetTopFresh(a, n, v);
            a'.store == a.store + [v] && a'.closures == a.closures && a'.globals == a.globals
  {}

  /** The loop variable moved to the newest cell. */
  lemma FreshTop(ls: seq<LFrame>, a: Env, at: seq<nat>, n: Name, v: Value, i: Option<nat>, l: Local)
    requires ls != [] && RelFrames(ls, a.frames, a.store + [v], at)
    requires i == First(LocalNames(ls[|ls| - 1].locals), n)
    requires LocalNames(ls[|ls| - 1].locals) == VarNames(TopFrame(a).vars)
    requires l.name == n && l.cell.Some? && l.cell.value < |at| && at[l.cell.value] == |a.store|
    ensures var t := |ls| - 1;
            var a' := SetTopFresh(a, n, v);
            RelFrames(ls[t := ls[t].(locals := if i.Some? then ls[t].locals[i.value := l] else ls[t].locals + [l])],
                      a'.frames, a'.store, at)
  {
    var t := |ls| - 1;
    TopSlot(ls, a.frames, a.store + [v], at, if i.Some? then i.value else |ls[t].locals|, l, Var(n, |a.store|));
  }

  // ----- the interpreter state -----

  /** The innermost frame cannot take another local. */
  predicate NoRoom(ls: seq<LFrame>) {
    ls != [] && |ls[|ls| - 1].locals| >= MAX_LOCALS
  }

  predicate InTop(ls: seq<LFrame>, n: Name) {
    ls != [] && n in LocalNames(ls[|ls| - 1].locals)
  }

  class LuaState {
    var frames: seq<LFrame>
    var cells: seq<Value>
    var closures: seq<seq<UpEntry>>
    var globals: seq<Global>
    /** The plain environment represented, and the location each cell stands for. */
    ghost var env: Env
    ghost var at: seq<nat>

    ghost predicate Valid()
      reads this
    {
      Sound(env) && env.globals == globals &&
      RelFrames(frames, env.frames, env.store, at) && RelCells(cells, env.store, at) &&
      RelClosures(closures, env.closures, at)
    }

    /** A capacity the operation needs is used up. */
    predicate AtLimit(cmd: Cmd)
      reads this
    {
      match cmd
      case Push(_, _) => |frames| >= MAX_FRAMES
      case DeclareCmd(_, _) => NoRoom(frames)
      case SetTopCmd(n, _) => NoRoom(frames) && !InTop(frames, n)
      case FreshCmd(n, _) => |cells| >= MAX_CELLS || (NoRoom(frames) && !InTop(frames, n))
      case Close(_) => |closures| >= MAX_CLOSURES || |cells| >= MAX_CELLS
      case _ => false
    }

    /** The operation works on the innermost frame, and there is none. */
    predicate NoFrame(cmd: Cmd)
      reads this
    {
      frames == [] && (cmd.DeclareCmd? || cmd.SetTopCmd? || cmd.FreshCmd?)
    }

    constructor ()
      ensures Valid() && env == Env([], [], [], [])
    {
      frames, cells, closures, globals := [], [], [], [];
      env, at := Env([], [], [], []), [];
    }

    /** No two locals share a cell. */
    lemma CellsNotShared(f: nat, i: nat, g: nat, j: nat)
      requires Valid() && f < |frames| && i < |frames[f].locals| && g < |frames| && j < |frames[g].locals|
      requires f != g || i != j
      requires frames[f].locals[i].cell.Some?
      ensures frames[f].locals[i].cell != frames[g].locals[j].cell
    {
      assert RelFrame(frames[f], env.frames[f], env.store, at);
      assert RelFrame(frames[g], env.frames[g], env.store, at);
      assert RelLocal(frames[f].locals[i], env.frames[f].vars[i], env.store, at);
      assert RelLocal(frames[g].locals[j], env.frames[g].vars[j], env.store, at);
      assert IsSlot(env.frames, f, i) && IsSlot(env.frames, g, j);
      assert SlotLoc(env.frames, f, i) != SlotLoc(env.frames, g, j);
    }

    method PushFrame(isFn: bool, closure: Option<nat>) returns (r: Result<(), Error>)
      requires Valid()
      modifies this
      ensures Valid()
      ensures r.Err? <==> |old(frames)| >= MAX_FRAMES
      ensures env == if r.Ok? then EnvSpec.PushFrame(old(env), isFn, closure) else old(env)
      ensures r.Err? ==> frames == old(frames)
    {
      if |frames| >= MAX_FRAMES {
        return Err(TooManyFrames);
      }
      frames := frames + [LFrame([], isFn, closure)];
      env := EnvSpec.PushFrame(env, isFn, closure);
      assert forall f, i | IsSlot(env.frames, f, i) ::
          IsSlot(old(env).frames, f, i) && SlotLoc(env.frames, f, i) == SlotLoc(old(env).frames, f, i);
      return Ok(());
    }

    method PopFrame()
      requires Valid()
      modifies this
      ensures Valid() && env == EnvSpec.PopFrame(old(env))
    {
      if |frames| > 0 {
        frames := frames[..|frames| - 1];
        env := EnvSpec.PopFrame(env);
        assert forall f, i | IsSlot(env.frames, f, i) ::
            IsSlot(old(env).frames, f, i) && SlotLoc(env.frames, f, i) == SlotLoc(old(env).frames, f, i);
      }
    }

    method DeclareLocal(n: Name, v: Value) returns (r: Result<(), Error>)
      requires Valid()
      modifies this
      ensures Valid()
      ensures r.Err? <==> old(frames) == [] || NoRoom(old(frames))
      ensures r.Ok? ==> old(env).frames != [] && env == Declare(old(env), n, v)
      ensures r.Err? ==> env == old(env) && frames == old(frames)
    {
      if frames == [] {
        return Err(NoScope);
      }
      var t := |frames| - 1;
      if |frames[t].locals| >= MAX_LOCALS {
        return Err(TooManyLocals);
      }
      hide Sound, RelClosures, RelCells, RelFrames, LShape, Shape;
      SameShape(frames, closures, env, at);
      DeclareSound(env, n, v);
      GrowStore(frames, cells, env, at, v);
      TopSlot(frames, env.frames, env.store + [v], at, |frames[t].locals|, Local(n, v, None), Var(n, |env.store|));
      frames := frames[t := frames[t].(locals := frames[t].locals + [Local(n, v, None)])];
      env := Declare(env, n, v);
      return Ok(());
    }

    /** Writes the variable behind a slot, wherever it lives. */
    method SetSlot(f: nat, i: nat, v: Value)
      requires Valid() && f < |frames| && i < |frames[f].locals|
      modifies this
      ensures Valid() && IsSlot(old(env).frames, f, i)
      ensures env == Store(old(env), SlotLoc(old(env).frames, f, i), v)
    {
      assert RelFrame(frames[f], env.frames[f], env.store, at);
      assert RelLocal(frames[f].locals[i], env.frames[f].vars[i], env.store, at);
      assert IsSlot(env.frames, f, i);
      var l := frames[f].locals[i];
      if l.cell.None? {
        WriteSlot(frames, cells, env, at, f, i, v);
        frames := frames[f := frames[f].(locals := frames[f].locals[i := l.(value := v)])];
        env := Store(env, SlotLoc(env.frames, f, i), v);
      } else {
        SetCell(l.cell.value, v);
      }
    }

    method SetCell(c: nat, v: Value)
      requires Valid() && c < |cells|
      modifies this
      ensures Valid() && env == Store(old(env), old(at)[c], v)
    {
      WriteCell(frames, cells, env, at, c, v);
      cells := cells[c := v];
      env := Store(env, at[c], v);
    }

    method SetLocalTop(n: Name, v: Value) returns (r: Result<(), Error>)
      requires Valid()
      modifies this
      ensures Valid()
      ensures r.Err? <==> old(frames) == [] || (NoRoom(old(frames)) && !InTop(old(frames), n))
      ensures r.Ok? ==> old(env).frames != [] && env == SetTop(old(env), n, v)
      ensures r.Err? ==> env == old(env) && frames == old(frames)
    {
      if frames == [] {
        return Err(NoScope);
      }
      var t := |frames| - 1;
      SameShape(frames, closures, env, at);
      var i := FirstLocal(frames[t].locals, n);
      if i.Some? {
        SetSlot(t, i.value, v);
        return Ok(());
      }
      r := DeclareLocal(n, v);
    }

    method AllocCell(v: Value) returns (r: Result<nat, Error>)
      requires Valid()
      modifies this
      ensures Valid() && frames == old(frames) && closures == old(closures) && globals == old(globals)
      ensures r.Err? ==> env == old(env) && at == old(at) && cells == old(cells)
      ensures r.Err? <==> |old(cells)| >= MAX_CELLS
      ensures r.Ok? ==> r.value == |old(cells)| && at == old(at) + [|old(env).store|]
      ensures r.Ok? ==> env == old(env).(store := old(env).store + [v])
    {
      if |cells| >= MAX_CELLS {
        return Err(TooManyCells);
      }
      var c := |cells|;
      var a' := env.(store := env.store + [v]);
      GrowStore(frames, cells, env, at, v);
      assert forall f, i | IsSlot(env.frames, f, i) :: SlotLoc(env.frames, f, i) < |env.store|;
      GrowCells(frames, closures, cells, a', at, |env.store|);
      cells := cells + [v];
      at := at + [|env.store|];
      env := a';
      return Ok(c);
    }

    /** The loop variable moves to a cell of its own for this iteration. When the frame is full
        the cell is allocated but stays unused. */
    method SetLocalTopCell(n: Name, v: Value) returns (r: Result<(), Error>)
      requires Valid()
      modifies this
      ensures Valid()
      ensures r.Err? <==> old(frames) == [] || |old(cells)| >= MAX_CELLS || (NoRoom(old(frames)) && !InTop(old(frames), n))
      ensures r.Ok? ==> old(env).frames != [] && env == SetTopFresh(old(env), n, v)
      ensures r.Err? ==> frames == old(frames) && |old(cells)| <= |cells|
      ensures r.Err? ==> env == old(env) || env == old(env).(store := old(env).store + [v])
    {
      hide Sound, RelClosures, LShape, Shape, SetTopFresh;
      if frames == [] {
        return Err(NoScope);
      }
      var c := AllocCell(v);
      if c.Err? {
        return Err(c.error);
      }
      r := MoveTop(n, v, c.value, old(env));
    }

    /** The slot of the loop variable moves to cell `c`, the newest one. */
    method MoveTop(n: Name, v: Value, c: nat, ghost a: Env) returns (r: Result<(), Error>)
      requires Valid() && frames != [] && Sound(a) && env == a.(store := a.store + [v])
      requires c < |at| && at[c] == |a.store|
      modifies this
      ensures Valid() && cells == old(cells)
      ensures r.Err? <==> NoRoom(old(frames)) && !InTop(old(frames), n)
      ensures r.Ok? ==> env == SetTopFresh(a, n, v)
      ensures r.Err? ==> frames == old(frames) && env == old(env)
    {
      hide Sound, RelClosures, RelFrames, RelCells, LShape, Shape, SetTopFresh, LocalNames, VarNames, First;
      var t := |frames| - 1;
      SameShape(frames, closures, env, at);
      var i := FirstLocal(frames[t].locals, n);
      SetTopFreshSound(a, n, v);
      FreshKeeps(a, n, v);
      NamesOfLocals(frames[t].locals);
      env := SetTopFresh(a, n, v);
      if i.Some? {
        var l := frames[t].locals[i.value].(cell := Some(c));
        FreshTop(frames, a, at, n, v, i, l);
        frames := frames[t := frames[t].(locals := frames[t].locals[i.value := l])];
        return Ok(());
      }
      if |frames[t].locals| >= MAX_LOCALS {
        env := a.(store := a.store + [v]);
        return Err(TooManyLocals);
      }
      var l := Local(n, Nil, Some(c));
      FreshTop(frames, a, at, n, v, i, l);
      frames := frames[t := frames[t].(locals := frames[t].locals + [l])];
      return Ok(());
    }

    /** The slot or captured name a variable name denotes in the running function. */
    method Find(n: Name) returns (w: Where)
      requires Valid()
      ensures w == WhereIs(env, n)
      ensures w.Slot? ==> w.f < |frames| && w.i < |frames[w.f].locals| && IsSlot(env.frames, w.f, w.i) &&
                          RelLocal(frames[w.f].locals[w.i], env.frames[w.f].vars[w.i], env.store, at)
      ensures w.UpVal? ==> w.c < |closures| && w.i < |closures[w.c]| &&
                           RelUp(closures[w.c][w.i], env.closures[w.c][w.i], at)
    {
      hide Sound, RelFrames, RelClosures, RelCells, RelLocal, RelUp, RelFrame, RelUps, Resolve, LShape, LClosureNames, First;
      SameShape(frames, closures, env, at);
      ghost var shape, ups := LShape(frames), LClosureNames(closures);
      var f := |frames|;
      ResolveStart(shape, ups, n);
      while f > 0
        invariant 0 <= f <= |frames|
        invariant Resolve(shape, ups, n, f) == WhereIs(env, n)
      {
        f := f - 1;
        FrameAt(frames, closures, env, at, f);
        ResolveStep(shape, ups, n, f);
        var i := FirstLocal(frames[f].locals, n);
        if i.Some? {
          SlotAt(frames, env, at, n, f, i.value);
          return Slot(f, i.value);
        }
        if frames[f].isFn {
          var c := frames[f].closure;
          if c.Some? && c.value < |closures| {
            var k := FirstEntry(closures[c.value], n);
            if k.Some? {
              UpAt(closures, env, at, n, c.value, k.value);
              return UpVal(c.value, k.value);
            }
          }
          return Elsewhere;
        }
      }
      return Elsewhere;
    }

    method AssignLocal(n: Name, v: Value) returns (found: bool)
      requires Valid()
      modifies this
      ensures Valid() && (env, found) == Assign(old(env), n, v)
    {
      var w := Find(n);
      match w {
        case Slot(f, i) =>
          SetSlot(f, i, v);
          return true;
        case UpVal(c, i) =>
          var cell := closures[c][i].cell;
          if cell.Some? {
            SetCell(cell.value, v);
          }
          return true;
        case Elsewhere => return false;
      }
    }

    method Lookup(n: Name) returns (r: Option<Value>)
      requires Valid()
      ensures r == EnvSpec.Lookup(env, n)
    {
      var w := Find(n);
      match w {
        case Slot(f, i) =>
          var l := frames[f].locals[i];
          return Some(if l.cell.None? then l.value else cells[l.cell.value]);
        case UpVal(c, i) =>
          var cell := closures[c][i].cell;
          return Some(if cell.None? then Nil else cells[cell.value]);
        case Elsewhere =>
          ghost var names := GlobalNames(globals);
          for i := 0 to |globals|
            invariant n !in names[..i]
          {
            if globals[i].name == n {
              FirstIs(names, n, i);
              return Some(globals[i].value);
            }
            assert names[..i + 1] == names[..i] + [names[i]];
          }
          assert names[..|globals|] == names;
          FirstIsNone(names, n);
          return None;
      }
    }

    /** The cell a new closure captures for a name: a local is boxed on the way, which changes
        no variable; a captured name passes its own cell on. */
    method CaptureCell(n: Name) returns (r: Result<Option<nat>, Error>)
      requires Valid()
      modifies this
      ensures Valid() && env == old(env) && closures == old(closures) && old(at) <= at
      ensures r.Err? ==> |cells| >= MAX_CELLS
      ensures r.Ok? ==> RelUp(UpEntry(n, r.value), Up(n, LocOf(env, n)), at)
    {
      var w := Find(n);
      match w {
        case Slot(f, i) =>
          var l := frames[f].locals[i];
          if l.cell.Some? {
            return Ok(l.cell);
          }
          if |cells| >= MAX_CELLS {
            return Err(TooManyCells);
          }
          BoxSlot(frames, closures, cells, env, at, f, i);
          frames := frames[f := frames[f].(locals := frames[f].locals[i := l.(cell := Some(|cells|))])];
          at := at + [SlotLoc(env.frames, f, i)];
          cells := cells + [l.value];
          return Ok(Some(|cells| - 1));
        case UpVal(c, i) => return Ok(closures[c][i].cell);
        case Elsewhere => return Ok(None);
      }
    }

    /** A closure over `names`. The slot is reserved first and stays empty on failure. */
    method MakeClosure(names: seq<Name>) returns (r: Result<nat, Error>)
      requires Valid()
      modifies this
      ensures Valid()
      ensures r.Err? ==> |old(closures)| >= MAX_CLOSURES || |cells| >= MAX_CELLS
      ensures |old(closures)| >= MAX_CLOSURES ==> r.Err? && closures == old(closures)
      ensures r.Ok? ==> r.value == |old(closures)| < MAX_CLOSURES && env == EnvSpec.MakeClosure(old(env), names)
      ensures r.Err? ==> env == old(env) || env == EnvSpec.MakeClosure(old(env), [])
    {
      hide LocOf, Sound, RelFrames, RelCells, RelClosures, WhereIs;
      if |closures| >= MAX_CLOSURES {
        return Err(TooManyClosures);
      }
      var ups: seq<UpEntry> := [];
      for k := 0 to |names|
        invariant Valid() && env == old(env) && closures == old(closures) && |ups| == k
        invariant forall j :: 0 <= j < k ==> RelUp(ups[j], Up(names[j], LocOf(env, names[j])), at)
      {
        ghost var before := at;
        var c := CaptureCell(names[k]);
        if c.Err? {
          assert RelUps([], Capture(env, []), at);
          MakeClosureSound(env, []);
          AddClosure([], Capture(env, []));
          return Err(c.error);
        }
        forall j | 0 <= j < k ensures RelUp(ups[j], Up(names[j], LocOf(env, names[j])), at) {
          assert RelUp(ups[j], Up(names[j], LocOf(env, names[j])), before);
        }
        ups := ups + [UpEntry(names[k], c.value)];
      }
      MakeClosureSound(env, names);
      assert RelUps(ups, Capture(env, names), at);
      AddClosure(ups, Capture(env, names));
      return Ok(|closures| - 1);
    }

    method AddClosure(ups: seq<UpEntry>, ghost vs: seq<Up>)
      requires Valid() && RelUps(ups, vs, at)
      requires Sound(env.(closures := env.closures + [vs]))
      modifies this
      ensures Valid() && env == old(env).(closures := old(env).closures + [vs])
      ensures |closures| == |old(closures)| + 1 && cells == old(cells)
    {
      forall c | 0 <= c < |closures| + 1
        ensures RelUps((closures + [ups])[c], (env.closures + [vs])[c], at)
      {
        if c < |closures| {
          assert RelUps(closures[c], env.closures[c], at);
        }
      }
      closures := closures + [ups];
      env := env.(closures := env.closures + [vs]);
    }

    /** Creates or updates a global; beyond the capacity a new global is silently dropped. */
    method SetGlobal(n: Name, v: Value)
      requires Valid()
      modifies this
      ensures Valid() && env == old(env).(globals := EnvSpec.SetGlobal(old(env).globals, n, v))
    {
      ghost var names := GlobalNames(globals);
      for i := 0 to |globals|
        invariant n !in names[..i] && Valid() && env == old(env) && globals == old(globals)
      {
        if globals[i].name == n {
          FirstIs(names, n, i);
          globals := globals[i := Global(n, v)];
          env := env.(globals := globals);
          return;
        }
        assert names[..i + 1] == names[..i] + [names[i]];
      }
      assert names[..|globals|] == names;
      FirstIsNone(names, n);
      if |globals| < MAX_GLOBALS {
        globals := globals + [Global(n, v)];
        env := env.(globals := globals);
      }
    }

    // ----- runs -----

    /** One operation; a failing one leaves the run. */
    method Step(cmd: Cmd) returns (ok: bool, out: Option<Value>)
      requires Valid()
      modifies this
      ensures Valid()
      ensures !ok ==> AtLimit(cmd) || NoFrame(cmd)
      ensures (old(AtLimit(cmd)) && !cmd.Close?) || old(NoFrame(cmd)) ==> !ok
      ensures ok ==> CanStep(old(env), cmd) && (env, out) == EnvStep(old(env), cmd)
    {
      hide Sound, RelFrames, RelCells, RelClosures, Declare, SetTop, SetTopFresh, WhereIs, LocOf, Capture, LocalNames;
      out := None;
      var r: Result<(), Error> := Ok(());
      match cmd {
        case Push(isFn, closure) => r := PushFrame(isFn, closure);
        case Pop => PopFrame();
        case DeclareCmd(n, v) => r := DeclareLocal(n, v);
        case SetTopCmd(n, v) => r := SetLocalTop(n, v);
        case FreshCmd(n, v) => r := SetLocalTopCell(n, v);
        case AssignCmd(n, v) =>
          var found := AssignLocal(n, v);
          if !found {
            SetGlobal(n, v);
          }
        case SetGlobalCmd(n, v) => SetGlobal(n, v);
        case Close(names) =>
          var c := MakeClosure(names);
          if c.Err? {
            r := Err(c.error);
          }
        case Get(n) => out := Lookup(n);
      }
      ok := r.Ok?;
    }

    /** Over any run of operations, every lookup answers as in the plain environment; the run
        stops early only at an operation that needs a capacity used up, or a frame where there
        is none. */
    method Run(cmds: seq<Cmd>) returns (done: nat, outs: seq<Option<Value>>)
      requires Valid()
      modifies this
      ensures Valid() && done <= |cmds| && (done < |cmds| ==> AtLimit(cmds[done]) || NoFrame(cmds[done]))
      ensures CanRun(old(env), cmds[..done]) && outs == RunOuts(old(env), cmds[..done])
    {
      hide CanStep, EnvStep, CanRun, RunEnv, RunOuts, Sound, RelFrames, RelCells, RelClosures;
      done, outs := 0, [];
      ghost var start := env;
      RunNone(start);
      assert cmds[..0] == [];
      while done < |cmds|
        invariant Valid() && done <= |cmds|
        invariant CanRun(start, cmds[..done]) && outs == RunOuts(start, cmds[..done]) && env == RunEnv(start, cmds[..done])
      {
        var ok, out := Step(cmds[done]);
        if !ok {
          return;
        }
        RunSnoc(start, cmds[..done], cmds[done]);
        assert cmds[..done + 1] == cmds[..done] + [cmds[done]];
        done, outs := done + 1, outs + [out];
      }
    }
  }

  datatype Cmd =
    | Push(isFn: bool, closure: Option<nat>)
    | Pop
    | DeclareCmd(n: Name, v: Value)
    | SetTopCmd(n: Name, v: Value)
    | FreshCmd(n: Name, v: Value)
    | AssignCmd(n: Name, v: Value)
    | SetGlobalCmd(n: Name, v: Value)
    | Close(names: seq<Name>)
    | Get(n: Name)

  predicate CanStep(a: Env, cmd: Cmd) {
    cmd.DeclareCmd? || cmd.SetTopCmd? || cmd.FreshCmd? ==> a.frames != []
  }

  /** One operation in the plain environment. Nothing here knows of cells. */
  function EnvStep(a: Env, cmd: Cmd): (Env, Option<Value>)
    requires CanStep(a, cmd)
  {
    match cmd
    case Push(isFn, closure) => (PushFrame(a, isFn, closure), None)
    case Pop => (PopFrame(a), None)
    case DeclareCmd(n, v) => (Declare(a, n, v), None)
    case SetTopCmd(n, v) => (SetTop(a, n, v), None)
    case FreshCmd(n, v) => (SetTopFresh(a, n, v), None)
    case AssignCmd(n, v) => (SetVar(a, n, v), None)
    case SetGlobalCmd(n, v) => (a.(globals := SetGlobal(a.globals, n, v)), None)
    case Close(names) => (MakeClosure(a, names), None)
    case Get(n) => (a, Lookup(a, n))
  }

  predicate CanRun(a: Env, cmds: seq<Cmd>)
    decreases |cmds|
  {
    cmds == [] || (CanStep(a, cmds[0]) && CanRun(EnvStep(a, cmds[0]).0, cmds[1..]))
  }

  function RunEnv(a: Env, cmds: seq<Cmd>): Env
    requires CanRun(a, cmds)
    decreases |cmds|
  {
    if cmds == [] then a else RunEnv(EnvStep(a, cmds[0]).0, cmds[1..])
  }

  function RunOuts(a: Env, cmds: seq<Cmd>): seq<Option<Value>>
    requires CanRun(a, cmds)
    decreases |cmds|
  {
    if cmds == [] then [] else [EnvStep(a, cmds[0]).1] + RunOuts(EnvStep(a, cmds[0]).0, cmds[1..])
  }

  lemma RunNone(a: Env)
    ensures CanRun(a, []) && RunEnv(a, []) == a && RunOuts(a, []) == []
  {
  }

  lemma RunStep(a: Env, cmds: seq<Cmd>)
    requires cmds != []
    ensures CanRun(a, cmds) <==> CanStep(a, cmds[0]) && CanRun(EnvStep(a, cmds[0]).0, cmds[1..])
    ensures CanRun(a, cmds) ==> RunEnv(a, cmds) == RunEnv(EnvStep(a, cmds[0]).0, cmds[1..])
    ensures CanRun(a, cmds) ==> RunOuts(a, cmds) == [EnvStep(a, cmds[0]).1] + RunOuts(EnvStep(a, cmds[0]).0, cmds[1..])
  {
    hide EnvStep, CanStep;
  }

  lemma {:induction false} RunSnoc(a: Env, cmds: seq<Cmd>, cmd: Cmd)
    requires CanRun(a, cmds) && CanStep(RunEnv(a, cmds), cmd)
    ensures CanRun(a, cmds + [cmd])
    ensures RunEnv(a, cmds + [cmd]) == EnvStep(RunEnv(a, cmds), cmd).0
    ensures RunOuts(a, cmds + [cmd]) == RunOuts(a, cmds) + [EnvStep(RunEnv(a, cmds), cmd).1]
    decreases |cmds|
  {
    hide EnvStep, CanStep, CanRun, RunEnv, RunOuts;
    var all := cmds + [cmd];
    RunStep(a, all);
    if cmds == [] {
      assert all[1..] == [];
      RunNone(a);
      RunNone(EnvStep(a, cmd).0);
    } else {
      RunStep(a, cmds);
      assert all[1..] == cmds[1..] + [cmd];
      RunSnoc(EnvStep(a, cmds[0]).0, cmds[1..], cmd);
    }
  }
}
