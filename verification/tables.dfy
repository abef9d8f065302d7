/** Tables in place: slot arrays, raw access, traversal, and access through metatables. */
module Tables {
  import opened Core
  import opened Values
  import opened TableSpec

  class TableRec {
    const slots: array<Slot>
    var len: nat
    var mt: Option<nat>

    ghost predicate Valid()
      reads this, slots
    {
      slots.Length == TABLE_SLOTS && len <= TABLE_SLOTS && Sound(slots[..len])
    }

    ghost function Contents(): Entries
      reads this, slots
      requires Valid()
    {
      slots[..len]
    }

    constructor ()
      ensures Valid() && fresh(slots) && Contents() == [] && mt == None
    {
      slots := new Slot[TABLE_SLOTS](_ => Slot(Nil, Nil));
      len, mt := 0, None;
    }

    method IndexOf(k: Value) returns (r: Option<nat>)
      requires Valid()
      ensures r == Find(Contents(), k)
    {
      for i := 0 to len
        invariant forall j :: 0 <= j < i ==> slots[j].key != k
      {
        if slots[i].key == k {
          assert Contents()[i].key == k;
          return Some(i);
        }
      }
      FindNone(Contents(), k);
      return None;
    }

    method RawGet(k: Value) returns (v: Value)
      requires Valid()
      ensures v == Get(Contents(), k)
    {
      var i := IndexOf(k);
      return if i.Some? then slots[i.value].value else Nil;
    }

    method RawHas(k: Value) returns (has: bool)
      requires Valid()
      ensures has <==> Find(Contents(), k).Some?
    {
      var i := IndexOf(k);
      return i.Some?;
    }

    /** Moves the slots after `i` down, keeping them contiguous. */
    method RemoveAt(i: nat)
      requires i < len <= slots.Length
      modifies this`len, slots
      ensures len == old(len) - 1 && slots[..len] == old(slots[..i] + slots[i + 1..len])
    {
      ghost var es := slots[..len];
      var n := len;
      for j := i to n - 1
        invariant len == n
        invariant forall m :: 0 <= m < i ==> slots[m] == es[m]
        invariant forall m :: i < m <= j ==> slots[m - 1] == es[m]
        invariant forall m :: j <= m < n ==> slots[m] == es[m]
      {
        slots[j] := slots[j + 1];
      }
      len := len - 1;
      assert slots[..i] == es[..i];
      assert slots[i..len] == es[i + 1..];
      assert slots[..len] == slots[..i] + slots[i..len];
    }

    /** Update, remove or append. */
    method RawSet(k: Value, v: Value) returns (r: Result<(), Error>)
      requires Valid()
      modifies this`len, slots
      ensures Valid()
      ensures r == SetOutcome(old(Contents()), k, v)
      ensures Contents() == if r.Ok? then Set(old(Contents()), k, v) else old(Contents())
    {
      hide Find, Sound;
      if k == Nil {
        return Err(NilKey);
      }
      ghost var es := Contents();
      SetSound(es, k, v);
      var at := IndexOf(k);
      if at.Some? {
        var i := at.value;
        if v == Nil {
          RemoveAt(i);
          assert slots[..len] == es[..i] + es[i + 1..];
        } else {
          slots[i] := slots[i].(value := v);
          assert slots[..len] == es[i := es[i].(value := v)];
        }
        return Ok(());
      }
      if v == Nil {
        return Ok(());
      }
      if len >= TABLE_SLOTS {
        return Err(TableFull);
      }
      slots[len] := Slot(k, v);
      len := len + 1;
      assert slots[..len] == es + [Slot(k, v)];
      return Ok(());
    }

    method NextAfter(k: Value) returns (r: Result<Option<Slot>, Error>)
      requires Valid()
      ensures r == Next(Contents(), k)
    {
      var start := 0;
      if k != Nil {
        var i := IndexOf(k);
        if i.None? {
          return Err(InvalidKey);
        }
        start := i.value + 1;
      }
      return Ok(if start >= len then None else Some(slots[start]));
    }

    /** Calling `next` from nil until it returns nil visits each pair once, in order. */
    method Traverse() returns (seen: seq<Slot>)
      requires Valid()
      ensures seen == Contents()
    {
      seen := [];
      ghost var es := Contents();
      var k := Nil;
      while true
        invariant |seen| <= |es| && seen == es[..|seen|]
        invariant k == if seen == [] then Nil else seen[|seen| - 1].key
        decreases |es| - |seen|
      {
        if |seen| > 0 {
          NextSteps(es, |seen| - 1);
        }
        var r := NextAfter(k);
        if r.value.None? {
          return;
        }
        seen := seen + [r.value.value];
        k := r.value.value.key;
      }
    }
  }

  const INDEX: bytes := [95, 95, 105, 110, 100, 101, 120]
  const NEWINDEX: bytes := [95, 95, 110, 101, 119, 105, 110, 100, 101, 120]

  /** What reading through the chain gives. */
  function ReadOf(h: Heap, k: Value, w: Walk): Result<Value, Error>
    requires (w.Hit? || w.End?) ==> w.t < |h|
  {
    match w
    case Hit(t) => Ok(Get(h[t].entries, k))
    case End(_) => Ok(Nil)
    case Calls(f) => Err(CallsHandler(f))
    case TooLong => Err(ChainTooLong)
  }

  function WriteOf(h: Heap, k: Value, v: Value, w: Walk): Result<(), Error>
    requires (w.Hit? || w.End?) ==> w.t < |h|
  {
    match w
    case Hit(t) => SetOutcome(h[t].entries, k, v)
    case End(t) => SetOutcome(h[t].entries, k, v)
    case Calls(f) => Err(CallsHandler(f))
    case TooLong => Err(ChainTooLong)
  }

  /** One table changed by a store, if the store succeeds. */
  function Written(h: Heap, k: Value, v: Value, w: Walk): Heap
    requires (w.Hit? || w.End?) ==> w.t < |h|
  {
    if WriteOf(h, k, v, w).Err? then h
    else h[w.t := h[w.t].(entries := Set(h[w.t].entries, k, v))]
  }

  class LuaTables {
    var tbls: seq<TableRec>
    var mmDepth: nat
    /** The tables as values. */
    ghost var heap: Heap

    ghost function Repr(): set<object>
      reads this`tbls
    {
      (set t: TableRec | t in tbls :: t as object) + (set t: TableRec | t in tbls :: t.slots as object)
    }

    ghost predicate Apart()
      reads this`tbls
    {
      forall i, j :: 0 <= i < j < |tbls| ==> tbls[i] != tbls[j] && tbls[i].slots != tbls[j].slots
    }

    ghost predicate Valid()
      reads this, Repr()
    {
      Apart() && mmDepth <= MAX_MM_DEPTH && SoundHeap(heap) && |heap| == |tbls| &&
      forall i :: 0 <= i < |tbls| ==> Shows(tbls[i], heap[i])
    }

    constructor ()
      ensures Valid() && heap == [] && mmDepth == 0
    {
      tbls, mmDepth, heap := [], 0, [];
    }

    method NewTable() returns (r: Result<nat, Error>)
      requires Valid()
      modifies this
      ensures Valid() && fresh(Repr() - old(Repr())) && mmDepth == old(mmDepth)
      ensures r.Err? <==> |old(heap)| == MAX_TABLES
      ensures heap == if r.Err? then old(heap) else old(heap) + [TableView([], None)]
      ensures r.Ok? ==> r.value == |old(heap)|
    {
      hide SoundHeap, Sound;
      SmallHeap(heap);
      if |tbls| >= MAX_TABLES {
        return Err(TooManyTables);
      }
      GrowHeap(heap);
      var t := new TableRec();
      tbls := tbls + [t];
      heap := heap + [TableView([], None)];
      return Ok(|tbls| - 1);
    }

    method Handle(t: nat, event: bytes) returns (f: Value)
      requires Valid() && t < |tbls|
      ensures f == Handler(heap, t, event)
      ensures f.Table? ==> f.t < |tbls|
    {
      HandlerIn(heap, t, event);
      var mt := tbls[t].mt;
      if mt.None? {
        return Nil;
      }
      f := tbls[mt.value].RawGet(Str(event));
    }

    /** `t[k]` through `__index` tables. */
    method TGet(t: Value, k: Value) returns (r: Result<Value, Error>)
      requires Valid() && RefIn(t, |tbls|)
      modifies this`mmDepth
      ensures mmDepth == old(mmDepth)
      ensures r == if !t.Table? then Err(NotATable)
                   else ReadOf(heap, k, WalkFrom(heap, INDEX, t.t, k, MAX_MM_DEPTH - mmDepth))
      decreases MAX_MM_DEPTH - mmDepth
    {
      hide SoundHeap, Handler, Find, WalkFrom, Shows;
      if !t.Table? {
        return Err(NotATable);
      }
      WalkStep(heap, INDEX, t.t, k, MAX_MM_DEPTH - mmDepth);
      ShownValid(tbls[t.t], heap[t.t]);
      GetFinds(heap, t.t, k);
      var v := tbls[t.t].RawGet(k);
      if v != Nil {
        return Ok(v);
      }
      var f := Handle(t.t, INDEX);
      if f == Nil {
        return Ok(Nil);
      }
      if mmDepth >= MAX_MM_DEPTH {
        return Err(ChainTooLong);
      }
      mmDepth := mmDepth + 1;
      if f.Table? {
        r := TGet(f, k);
      } else {
        r := Err(CallsHandler(f));
      }
      mmDepth := mmDepth - 1;
    }

    method RawSetIn(t: nat, k: Value, v: Value) returns (r: Result<(), Error>)
      requires Valid() && t < |tbls| && RefIn(k, |tbls|) && RefIn(v, |tbls|)
      modifies this`heap, Repr()
      ensures Valid() && tbls == old(tbls) && mmDepth == old(mmDepth)
      ensures r == SetOutcome(old(heap)[t].entries, k, v)
      ensures heap == if r.Err? then old(heap) else old(heap)[t := old(heap)[t].(entries := Set(old(heap)[t].entries, k, v))]
    {
      hide SoundHeap, Set, SetOutcome, Sound;
      r := tbls[t].RawSet(k, v);
      if r.Ok? {
        WriteSound(heap, t, k, v);
        heap := heap[t := heap[t].(entries := Set(heap[t].entries, k, v))];
      }
      assert forall i :: 0 <= i < |tbls| && i != t ==> tbls[i] != tbls[t] && tbls[i].slots != tbls[t].slots;
    }

    /** `t[k] = v` through `__newindex` tables. */
    method TSet(t: Value, k: Value, v: Value) returns (r: Result<(), Error>)
      requires Valid() && RefIn(t, |tbls|) && RefIn(k, |tbls|) && RefIn(v, |tbls|)
      modifies this`mmDepth, this`heap, Repr()
      ensures Valid() && tbls == old(tbls) && mmDepth == old(mmDepth)
      ensures !t.Table? ==> r == Err(NotATable) && heap == old(heap)
      ensures t.Table? ==>
                var w := WalkFrom(old(heap), NEWINDEX, t.t, k, MAX_MM_DEPTH - mmDepth);
                r == WriteOf(old(heap), k, v, w) && heap == Written(old(heap), k, v, w)
      decreases MAX_MM_DEPTH - mmDepth
    {
      hide SoundHeap, Handler, Find, Set, SetOutcome, WalkFrom, Shows, Apart, Repr, WriteOf, Written;
      if !t.Table? {
        return Err(NotATable);
      }
      WalkStep(heap, NEWINDEX, t.t, k, MAX_MM_DEPTH - mmDepth);
      WriteCases(heap, k, v, WalkFrom(heap, NEWINDEX, t.t, k, MAX_MM_DEPTH - mmDepth));
      ShownValid(tbls[t.t], heap[t.t]);
      var has := tbls[t.t].RawHas(k);
      if has {
        r := RawSetIn(t.t, k, v);
        return;
      }
      var f := Handle(t.t, NEWINDEX);
      if f == Nil {
        r := RawSetIn(t.t, k, v);
        return;
      }
      if mmDepth >= MAX_MM_DEPTH {
        return Err(ChainTooLong);
      }
      mmDepth := mmDepth + 1;
      if f.Table? {
        r := TSet(f, k, v);
      } else {
        r := Err(CallsHandler(f));
      }
      mmDepth := mmDepth - 1;
    }

    /** Stores or removes the metatable; a metatable with a `__metatable` field is protected. */
    method SetMetatable(t: nat, mt: Option<nat>) returns (ok: bool)
      requires Valid() && t < |tbls| && (mt.Some? ==> mt.value < |tbls|)
      modifies this`heap, Repr()
      ensures Valid() && tbls == old(tbls) && mmDepth == old(mmDepth)
      ensures !ok <==> Handler(old(heap), t, METATABLE) != Nil
      ensures heap == if ok then old(heap)[t := old(heap)[t].(mt := mt)] else old(heap)
    {
      hide SoundHeap, Handler, Find;
      var p := Handle(t, METATABLE);
      if p != Nil {
        return false;
      }
      MetatableSound(heap, t, mt);
      tbls[t].mt := mt;
      heap := heap[t := heap[t].(mt := mt)];
      assert forall i :: 0 <= i < |tbls| && i != t ==> tbls[i] != tbls[t] && tbls[i].slots != tbls[t].slots;
      return true;
    }
  }

  const METATABLE: bytes := [95, 95, 109, 101, 116, 97, 116, 97, 98, 108, 101]

  /** A table record holds what its value says. */
  ghost predicate Shows(t: TableRec, tv: TableView)
    reads t, t.slots
  {
    t.Valid() && t.slots[..t.len] == tv.entries && t.mt == tv.mt
  }

  lemma ShownValid(t: TableRec, tv: TableView)
    requires Shows(t, tv)
    ensures t.Valid() && t.Contents() == tv.entries
  {
  }

  lemma WriteCases(h: Heap, k: Value, v: Value, w: Walk)
    requires (w.Hit? || w.End?) ==> w.t < |h|
    ensures w.Hit? || w.End? ==>
              var r := SetOutcome(h[w.t].entries, k, v);
              WriteOf(h, k, v, w) == r &&
              Written(h, k, v, w) == if r.Err? then h else h[w.t := h[w.t].(entries := Set(h[w.t].entries, k, v))]
    ensures w.Calls? ==> WriteOf(h, k, v, w) == Err(CallsHandler(w.f)) && Written(h, k, v, w) == h
    ensures w.TooLong? ==> WriteOf(h, k, v, w) == Err(ChainTooLong) && Written(h, k, v, w) == h
  {
  }

  /** One step of a walk. */
  lemma WalkStep(h: Heap, event: bytes, t: nat, k: Value, hops: nat)
    requires SoundHeap(h) && t < |h|
    ensures var f := Handler(h, t, event);
            RefIn(f, |h|) &&
            WalkFrom(h, event, t, k, hops) ==
            if Find(h[t].entries, k).Some? then Hit(t)
            else if f == Nil then End(t)
            else if hops == 0 then TooLong
            else if f.Table? then WalkFrom(h, event, f.t, k, hops - 1)
            else Calls(f)
  {
    hide SoundHeap;
    HandlerIn(h, t, event);
  }

  lemma GrowHeap(h: Heap)
    requires SoundHeap(h) && |h| < MAX_TABLES
    ensures SoundHeap(h + [TableView([], None)])
  {
    hide Sound;
    assert Sound([]) by { EmptySound(); }
    var h' := h + [TableView([], None)];
    forall t | 0 <= t < |h'| ensures SoundView(h'[t], |h'|) {
      if t < |h| {
        assert SoundView(h[t], |h|);
      }
    }
  }

  lemma EmptySound()
    ensures Sound([])
  {
  }

  lemma HandlerIn(h: Heap, t: nat, event: bytes)
    requires SoundHeap(h) && t < |h|
    ensures h[t].mt.Some? ==> h[t].mt.value < |h|
    ensures RefIn(Handler(h, t, event), |h|)
  {
    hide Sound;
    assert SoundView(h[t], |h|);
    if h[t].mt.Some? {
      assert SoundView(h[h[t].mt.value], |h|);
    }
  }

  lemma GetFinds(h: Heap, t: nat, k: Value)
    requires SoundHeap(h) && t < |h|
    ensures Get(h[t].entries, k) != Nil <==> Find(h[t].entries, k).Some?
  {
    assert SoundView(h[t], |h|);
  }

  lemma WriteSound(h: Heap, t: nat, k: Value, v: Value)
    requires SoundHeap(h) && t < |h| && RefIn(k, |h|) && RefIn(v, |h|)
    requires SetOutcome(h[t].entries, k, v).Ok?
    ensures SoundHeap(h[t := h[t].(entries := Set(h[t].entries, k, v))])
  {
    hide Sound;
    assert SoundView(h[t], |h|);
    SetSound(h[t].entries, k, v);
    var h' := h[t := h[t].(entries := Set(h[t].entries, k, v))];
    forall u | 0 <= u < |h'| ensures SoundView(h'[u], |h'|) {
      assert SoundView(h[u], |h|);
    }
  }

  lemma MetatableSound(h: Heap, t: nat, mt: Option<nat>)
    requires SoundHeap(h) && t < |h| && (mt.Some? ==> mt.value < |h|)
    ensures SoundHeap(h[t := h[t].(mt := mt)])
  {
    hide Sound;
    var h' := h[t := h[t].(mt := mt)];
    forall u | 0 <= u < |h'| ensures SoundView(h'[u], |h'|) {
      assert SoundView(h[u], |h|);
    }
  }
}
