/** Tables as values: insertion-ordered finite maps, and chains of metatable handlers. */
module TableSpec {
  import opened Core
  import opened Values

  datatype Slot = Slot(key: Value, value: Value)

  type Entries = seq<Slot>

  datatype Error = NilKey | TableFull | InvalidKey | NotATable | TooManyTables | ChainTooLong | CallsHandler(f: Value)

  const TABLE_SLOTS: nat := 32
  const MAX_TABLES: nat := 16
  const MAX_MM_DEPTH: nat := 100

  /** Keys are distinct, and neither keys nor values are nil. */
  ghost predicate Sound(es: Entries) {
    (forall i :: 0 <= i < |es| ==> es[i].key != Nil && es[i].value != Nil) &&
    (forall i, j :: 0 <= i < j < |es| ==> es[i].key != es[j].key)
  }

  function Find(es: Entries, k: Value): (r: Option<nat>)
    ensures r.Some? ==> r.value < |es| && es[r.value].key == k
    ensures r.Some? ==> forall i :: 0 <= i < r.value ==> es[i].key != k
    ensures r.None? ==> forall i :: 0 <= i < |es| ==> es[i].key != k
  {
    FindIn(es, k, 0)
  }

  function FindIn(es: Entries, k: Value, from: nat): (r: Option<nat>)
    requires from <= |es|
    ensures r.Some? ==> from <= r.value < |es| && es[r.value].key == k
    ensures r.Some? ==> forall i :: from <= i < r.value ==> es[i].key != k
    ensures r.None? ==> forall i :: from <= i < |es| ==> es[i].key != k
    decreases |es| - from
  {
    if from == |es| then None
    else if es[from].key == k then Some(from)
    else FindIn(es, k, from + 1)
  }

  function Get(es: Entries, k: Value): Value {
    match Find(es, k)
    case Some(i) => es[i].value
    case None => Nil
  }

  /** Storing: an existing key keeps its place, a new one goes last, nil removes. */
  function Set(es: Entries, k: Value, v: Value): Entries {
    match Find(es, k)
    case Some(i) => if v == Nil then es[..i] + es[i + 1..] else es[i := es[i].(value := v)]
    case None => if v == Nil then es else es + [Slot(k, v)]
  }

  function SetOutcome(es: Entries, k: Value, v: Value): Result<(), Error> {
    if k == Nil then Err(NilKey)
    else if Find(es, k).None? && v != Nil && |es| >= TABLE_SLOTS then Err(TableFull)
    else Ok(())
  }

  /** The pair after key `k`, or the first after nil; none at the end. */
  function Next(es: Entries, k: Value): Result<Option<Slot>, Error> {
    if k == Nil then Ok(At(es, 0))
    else
      match Find(es, k)
      case Some(i) => Ok(At(es, i + 1))
      case None => Err(InvalidKey)
  }

  function At(es: Entries, i: nat): Option<Slot> {
    if i < |es| then Some(es[i]) else None
  }

  // ----- an ordered map, for reference -----

  /** A finite map together with the order its keys were inserted in. */
  datatype OrderedMap = OrderedMap(m: map<Value, Value>, order: seq<Value>)

  function Without(ks: seq<Value>, k: Value): seq<Value> {
    if ks == [] then []
    else if ks[0] == k then Without(ks[1..], k)
    else [ks[0]] + Without(ks[1..], k)
  }

  ghost function Put(om: OrderedMap, k: Value, v: Value): OrderedMap {
    if v == Nil then OrderedMap(om.m - {k}, Without(om.order, k))
    else if k in om.m then OrderedMap(om.m[k := v], om.order)
    else OrderedMap(om.m[k := v], om.order + [k])
  }

  predicate CanPut(om: OrderedMap, k: Value, v: Value) {
    k != Nil && (v == Nil || k in om.m || |om.m| < TABLE_SLOTS)
  }

  ghost function PutAll(om: OrderedMap, stores: seq<Slot>): OrderedMap
    decreases |stores|
  {
    if stores == [] then om
    else
      var s := stores[0];
      PutAll(if CanPut(om, s.key, s.value) then Put(om, s.key, s.value) else om, stores[1..])
  }

  function SetAll(es: Entries, stores: seq<Slot>): Entries
    decreases |stores|
  {
    if stores == [] then es
    else
      var s := stores[0];
      SetAll(if SetOutcome(es, s.key, s.value).Ok? then Set(es, s.key, s.value) else es, stores[1..])
  }

  ghost function MapOf(es: Entries): map<Value, Value> {
    if es == [] then map[] else MapOf(es[..|es| - 1])[es[|es| - 1].key := es[|es| - 1].value]
  }

  function Keys(es: Entries): seq<Value> {
    seq(|es|, i requires 0 <= i < |es| => es[i].key)
  }

  ghost function Abs(es: Entries): OrderedMap {
    OrderedMap(MapOf(es), Keys(es))
  }

  lemma {:induction false} MapHas(es: Entries, k: Value)
    requires Sound(es)
    ensures k in MapOf(es) <==> Find(es, k).Some?
    ensures k in MapOf(es) ==> MapOf(es)[k] == Get(es, k)
    ensures |MapOf(es)| == |es|
  {
    if es != [] {
      var n := |es| - 1;
      MapHas(es[..n], k);
      MapHas(es[..n], es[n].key);
      if Find(es[..n], k).Some? {
        assert es[..n][Find(es[..n], k).value].key == k;
      }
      if Find(es, k).Some? && k != es[n].key {
        assert es[..n][Find(es, k).value].key == k;
      }
    }
  }

  /** Reading is looking up the map. */
  lemma GetIsLookup(es: Entries, k: Value)
    requires Sound(es)
    ensures Get(es, k) == if k in Abs(es).m then Abs(es).m[k] else Nil
  {
    MapHas(es, k);
  }

  lemma SetSound(es: Entries, k: Value, v: Value)
    requires Sound(es) && k != Nil
    ensures Sound(Set(es, k, v))
  {
  }

  /** Storing updates the ordered map. */
  lemma SetIsPut(es: Entries, k: Value, v: Value)
    requires Sound(es) && k != Nil
    ensures Abs(Set(es, k, v)) == Put(Abs(es), k, v)
    ensures SetOutcome(es, k, v).Ok? <==> CanPut(Abs(es), k, v)
  {
    hide Find, Get, Set, Sound, MapOf, Keys, Without;
    var es' := Set(es, k, v);
    SetSound(es, k, v);
    MapHas(es, k);
    forall q ensures q in MapOf(es') <==> q in Put(Abs(es), k, v).m
             ensures q in MapOf(es') ==> MapOf(es')[q] == Put(Abs(es), k, v).m[q]
    {
      MapHas(es, q);
      MapHas(es', q);
      FindAfterSet(es, k, v, q);
    }
    assert MapOf(es') == Put(Abs(es), k, v).m;
    KeysAfterSet(es, k, v);
  }

  lemma FindAt(es: Entries, i: nat)
    requires Sound(es) && i < |es|
    ensures Find(es, es[i].key) == Some(i) && Get(es, es[i].key) == es[i].value
  {
  }

  lemma FindNone(es: Entries, k: Value)
    requires forall i :: 0 <= i < |es| ==> es[i].key != k
    ensures Find(es, k) == None && Get(es, k) == Nil
  {
  }

  lemma AfterRemove(es: Entries, i: nat, q: Value)
    requires Sound(es) && i < |es|
    ensures var es' := es[..i] + es[i + 1..];
            Sound(es') && Get(es', q) == if q == es[i].key then Nil else Get(es, q)
    ensures Find(es[..i] + es[i + 1..], q).Some? <==> q != es[i].key && Find(es, q).Some?
  {
    hide Find, Get;
    var es' := es[..i] + es[i + 1..];
    if Find(es, q).Some? && q != es[i].key {
      var j := Find(es, q).value;
      assert es'[if j < i then j else j - 1] == es[j];
      FindAt(es, j);
      FindAt(es', if j < i then j else j - 1);
    } else {
      forall j | 0 <= j < |es'| ensures es'[j].key != q {
        assert es'[j] == es[if j < i then j else j + 1];
      }
      FindNone(es', q);
      if Find(es, q).None? {
        FindNone(es, q);
      }
    }
  }

  lemma AfterUpdate(es: Entries, i: nat, v: Value, q: Value)
    requires Sound(es) && i < |es| && v != Nil
    ensures var es' := es[i := es[i].(value := v)];
            Sound(es') && Get(es', q) == (if q == es[i].key then v else Get(es, q)) && Find(es', q) == Find(es, q)
  {
    hide Find, Get;
    var es' := es[i := es[i].(value := v)];
    if Find(es, q).Some? {
      FindAt(es, Find(es, q).value);
      FindAt(es', Find(es, q).value);
    } else {
      FindNone(es, q);
      FindNone(es', q);
    }
  }

  lemma AfterAppend(es: Entries, k: Value, v: Value, q: Value)
    requires Sound(es) && k != Nil && v != Nil && Find(es, k).None?
    ensures var es' := es + [Slot(k, v)];
            Sound(es') && Get(es', q) == (if q == k then v else Get(es, q)) &&
            (Find(es', q).Some? <==> q == k || Find(es, q).Some?)
  {
    hide Find, Get;
    var es' := es + [Slot(k, v)];
    if q == k {
      FindAt(es', |es|);
    } else if Find(es, q).Some? {
      FindAt(es, Find(es, q).value);
      FindAt(es', Find(es, q).value);
    } else {
      FindNone(es, q);
      FindNone(es', q);
    }
  }

  /** What is found after a store: the stored value under its own key, the rest as before. */
  lemma FindAfterSet(es: Entries, k: Value, v: Value, q: Value)
    requires Sound(es) && k != Nil
    ensures Get(Set(es, k, v), q) == if q == k then v else Get(es, q)
    ensures Find(Set(es, k, v), q).Some? <==> if q == k then v != Nil else Find(es, q).Some?
  {
    hide Find, Get, Sound;
    match Find(es, k)
    case Some(i) =>
      if v == Nil {
        AfterRemove(es, i, q);
      } else {
        AfterUpdate(es, i, v, q);
      }
    case None =>
      if v == Nil {
        FindNone(es, k);
      } else {
        AfterAppend(es, k, v, q);
      }
  }

  lemma {:induction false} WithoutAt(ks: seq<Value>, i: nat)
    requires i < |ks| && forall j :: 0 <= j < |ks| && j != i ==> ks[j] != ks[i]
    ensures Without(ks, ks[i]) == ks[..i] + ks[i + 1..]
  {
    if i == 0 {
      WithoutNone(ks[1..], ks[0]);
    } else {
      WithoutAt(ks[1..], i - 1);
      assert ks[1..][..i - 1] == ks[1..i] && ks[1..][i..] == ks[i + 1..];
      assert [ks[0]] + ks[1..i] == ks[..i];
    }
  }

  lemma {:induction false} WithoutNone(ks: seq<Value>, k: Value)
    requires k !in ks
    ensures Without(ks, k) == ks
  {
    if ks != [] {
      WithoutNone(ks[1..], k);
      assert [ks[0]] + ks[1..] == ks;
    }
  }

  lemma {:induction false} KeysAfterSet(es: Entries, k: Value, v: Value)
    requires Sound(es) && k != Nil
    ensures Keys(Set(es, k, v)) ==
            if v == Nil then Without(Keys(es), k)
            else if Find(es, k).Some? then Keys(es)
            else Keys(es) + [k]
  {
    hide Find, Without;
    var ks := Keys(es);
    match Find(es, k)
    case Some(i) =>
      assert ks[i] == k;
      if v == Nil {
        WithoutAt(ks, i);
        assert Keys(es[..i] + es[i + 1..]) == ks[..i] + ks[i + 1..];
      } else {
        assert Keys(es[i := es[i].(value := v)]) == ks;
      }
    case None =>
      WithoutNone(ks, k);
      assert Keys(es + [Slot(k, v)]) == ks + [k];
  }

  /** Any run of stores behaves as on the ordered map. */
  lemma {:induction false} RunIsOrderedMap(es: Entries, stores: seq<Slot>)
    requires Sound(es)
    ensures Sound(SetAll(es, stores)) && Abs(SetAll(es, stores)) == PutAll(Abs(es), stores)
    decreases |stores|
  {
    hide Set, Put, Abs, Sound;
    if stores != [] {
      var s := stores[0];
      if s.key != Nil {
        SetIsPut(es, s.key, s.value);
        SetSound(es, s.key, s.value);
      }
      RunIsOrderedMap(if SetOutcome(es, s.key, s.value).Ok? then Set(es, s.key, s.value) else es, stores[1..]);
    }
  }

  /** `next` steps from each pair to the one after it. */
  lemma NextSteps(es: Entries, i: nat)
    requires Sound(es) && i < |es|
    ensures Next(es, es[i].key) == Ok(At(es, i + 1))
  {
    assert Find(es, es[i].key) == Some(i);
  }

  /** A key removed during a traversal is not a place to continue from. */
  lemma RemovedKeyInvalid(es: Entries, k: Value)
    requires Sound(es) && k != Nil
    ensures Next(Set(es, k, Nil), k) == Err(InvalidKey)
  {
    FindAfterSet(es, k, Nil, k);
  }

  // ----- handler chains -----

  datatype TableView = TableView(entries: Entries, mt: Option<nat>)

  type Heap = seq<TableView>

  predicate RefIn(v: Value, n: nat) {
    v.Table? ==> v.t < n
  }

  ghost predicate SoundView(tv: TableView, n: nat) {
    Sound(tv.entries) && |tv.entries| <= TABLE_SLOTS && (tv.mt.Some? ==> tv.mt.value < n) &&
    forall i :: 0 <= i < |tv.entries| ==> RefIn(tv.entries[i].key, n) && RefIn(tv.entries[i].value, n)
  }

  ghost predicate SoundHeap(h: Heap) {
    |h| <= MAX_TABLES && forall t :: 0 <= t < |h| ==> SoundView(h[t], |h|)
  }

  /** The metatable's entry for an event, or nil. */
  function Handler(h: Heap, t: nat, event: bytes): Value
    requires t < |h|
  {
    match h[t].mt
    case None => Nil
    case Some(m) => if m < |h| then Get(h[m].entries, Str(event)) else Nil
  }

  /** The table reached after `i` handler steps through tables. */
  function Chain(h: Heap, event: bytes, t: nat, i: nat): (r: Option<nat>)
    requires t < |h|
    ensures r.Some? ==> r.value < |h|
  {
    if i == 0 then Some(t)
    else
      match Chain(h, event, t, i - 1)
      case None => None
      case Some(u) =>
        var f := Handler(h, u, event);
        if f.Table? && f.t < |h| then Some(f.t) else None
  }

  /** None of the first `n` tables of the chain has the key. */
  ghost predicate Misses(h: Heap, event: bytes, t: nat, k: Value, n: nat)
    requires t < |h|
  {
    forall i :: 0 <= i < n ==> MissesAt(h, event, t, k, i)
  }

  ghost predicate MissesAt(h: Heap, event: bytes, t: nat, k: Value, i: nat)
    requires t < |h|
  {
    Chain(h, event, t, i).Some? && Find(h[Chain(h, event, t, i).value].entries, k).None?
  }

  /** Where a walk along the chain ends. */
  datatype Walk = Hit(t: nat) | End(t: nat) | Calls(f: Value) | TooLong

  /** At most `hops` steps are made. */
  function WalkFrom(h: Heap, event: bytes, t: nat, k: Value, hops: nat): (w: Walk)
    requires t < |h|
    ensures w.Hit? || w.End? ==> w.t < |h|
    decreases hops
  {
    if Find(h[t].entries, k).Some? then Hit(t)
    else
      var f := Handler(h, t, event);
      if f == Nil then End(t)
      else if hops == 0 then TooLong
      else if f.Table? && f.t < |h| then WalkFrom(h, event, f.t, k, hops - 1)
      else Calls(f)
  }

  lemma {:induction false} ChainShift(h: Heap, event: bytes, t: nat, u: nat, i: nat)
    requires t < |h| && u < |h| && Chain(h, event, t, 1) == Some(u)
    ensures Chain(h, event, t, i + 1) == Chain(h, event, u, i)
  {
    hide Handler;
    if i > 0 {
      ChainShift(h, event, t, u, i - 1);
    }
  }

  lemma MissesShift(h: Heap, event: bytes, t: nat, k: Value, u: nat, n: nat)
    requires t < |h| && u < |h| && Chain(h, event, t, 1) == Some(u)
    ensures Misses(h, event, t, k, n + 1) <==> Find(h[t].entries, k).None? && Misses(h, event, u, k, n)
  {
    hide Find, Handler;
    forall i | 0 <= i < n ensures MissesAt(h, event, t, k, i + 1) <==> MissesAt(h, event, u, k, i) {
      ChainShift(h, event, t, u, i);
    }
    assert MissesAt(h, event, t, k, 0) <==> Find(h[t].entries, k).None?;
    if Misses(h, event, t, k, n + 1) {
      forall i | 0 <= i < n ensures MissesAt(h, event, u, k, i) {
        assert MissesAt(h, event, t, k, i + 1);
      }
    } else if Find(h[t].entries, k).None? {
      var i :| 0 <= i < n + 1 && !MissesAt(h, event, t, k, i);
      assert i > 0 && !MissesAt(h, event, u, k, i - 1);
    }
  }

  /** Table `u` is the `i`-th of the chain, and none before it has the key. */
  ghost predicate FirstAt(h: Heap, event: bytes, t: nat, k: Value, i: nat, u: nat)
    requires t < |h|
  {
    Misses(h, event, t, k, i) && Chain(h, event, t, i) == Some(u)
  }

  /** A walk ends at the first table that has the key, at the first without a handler, at a
      handler that is not a table, or when the steps run out. */
  lemma {:induction false} WalkIsFirst(h: Heap, event: bytes, t: nat, k: Value, hops: nat, i: nat, u: nat)
    requires t < |h| && u < |h| && i <= hops && FirstAt(h, event, t, k, i, u)
    ensures Find(h[u].entries, k).Some? ==> WalkFrom(h, event, t, k, hops) == Hit(u)
    ensures Find(h[u].entries, k).None? && Handler(h, u, event) == Nil ==> WalkFrom(h, event, t, k, hops) == End(u)
    ensures var f := Handler(h, u, event);
            Find(h[u].entries, k).None? && f != Nil && !f.Table? && i < hops ==> WalkFrom(h, event, t, k, hops) == Calls(f)
    ensures Find(h[u].entries, k).None? && Handler(h, u, event) != Nil && i == hops ==>
              WalkFrom(h, event, t, k, hops) == TooLong
    decreases i
  {
    hide Find, Handler;
    if i > 0 {
      assert MissesAt(h, event, t, k, 0);
      ChainPrefix(h, event, t, 1, i);
      var v := Chain(h, event, t, 1).value;
      ChainShift(h, event, t, v, i - 1);
      MissesShift(h, event, t, k, v, i - 1);
      WalkIsFirst(h, event, v, k, hops - 1, i - 1, u);
    }
  }

  lemma {:induction false} ChainPrefix(h: Heap, event: bytes, t: nat, i: nat, j: nat)
    requires t < |h| && i <= j && Chain(h, event, t, j).Some?
    ensures Chain(h, event, t, i).Some?
    decreases j - i
  {
    if i < j {
      ChainPrefix(h, event, t, i, j - 1);
    }
  }

  /** Conversely, where a walk ends is on the chain, behind tables without the key only. */
  lemma {:induction false} WalkEnds(h: Heap, event: bytes, t: nat, k: Value, hops: nat) returns (i: nat, u: nat)
    requires t < |h|
    ensures i <= hops && u < |h| && FirstAt(h, event, t, k, i, u)
    ensures var w := WalkFrom(h, event, t, k, hops);
            match w
            case Hit(v) => v == u && Find(h[u].entries, k).Some?
            case End(v) => v == u && Find(h[u].entries, k).None? && Handler(h, u, event) == Nil
            case Calls(f) => Find(h[u].entries, k).None? && f == Handler(h, u, event) && !(f.Table? && f.t < |h|) && i < hops
            case TooLong => Find(h[u].entries, k).None? && Handler(h, u, event) != Nil && i == hops
    decreases hops
  {
    hide Find, Handler;
    i, u := 0, t;
    var f := Handler(h, t, event);
    if Find(h[t].entries, k).None? && f.Table? && f.t < |h| && hops > 0 {
      i, u := WalkEnds(h, event, f.t, k, hops - 1);
      assert Chain(h, event, t, 1) == Some(f.t);
      ChainShift(h, event, t, f.t, i);
      MissesShift(h, event, t, k, f.t, i);
      i := i + 1;
    }
  }

  // ----- loops -----

  /** A long enough chain visits some table twice. */
  lemma {:induction false} Pigeonhole(s: seq<nat>, n: nat) returns (i: nat, j: nat)
    requires |s| > n && forall k :: 0 <= k < |s| ==> s[k] < n
    ensures i < j < |s| && s[i] == s[j]
    decreases n
  {
    var last := |s| - 1;
    if c :| 0 <= c < last && s[c] == s[last] {
      return c, last;
    }
    // Without the last value, and with the top value standing in for it, one table fewer is left.
    var rest := seq(last, k requires 0 <= k < last => if s[k] == n - 1 then s[last] else s[k]);
    forall k | 0 <= k < |rest| ensures rest[k] < n - 1 {
      assert s[k] != s[last];
    }
    i, j := Pigeonhole(rest, n - 1);
    assert s[i] == s[j];
  }

  lemma {:induction false} Periodic(h: Heap, event: bytes, t: nat, i: nat, j: nat, n: nat)
    requires t < |h| && i < j && Chain(h, event, t, i) == Chain(h, event, t, j)
    ensures Chain(h, event, t, i + n) == Chain(h, event, t, j + n)
  {
    hide Handler;
    if n > 0 {
      Periodic(h, event, t, i, j, n - 1);
    }
  }

  /** A chain that goes on for more tables than there are goes on for ever. */
  lemma {:induction false} MissesForever(h: Heap, event: bytes, t: nat, k: Value, n: nat)
    requires SoundHeap(h) && t < |h| && Misses(h, event, t, k, |h| + 1)
    ensures Misses(h, event, t, k, n)
  {
    hide Chain, Find;
    forall c | 0 <= c < |h| + 1 ensures Chain(h, event, t, c).Some? {
      assert MissesAt(h, event, t, k, c);
    }
    var visited: seq<nat> := seq(|h| + 1, c requires 0 <= c < |h| + 1 => Chain(h, event, t, c).value);
    var i, j := Pigeonhole(visited, |h|);
    forall c | 0 <= c < n ensures MissesAt(h, event, t, k, c) {
      MissesBack(h, event, t, k, i, j, c);
    }
  }

  lemma {:induction false} MissesBack(h: Heap, event: bytes, t: nat, k: Value, i: nat, j: nat, c: nat)
    requires t < |h| && i < j <= |h| && Chain(h, event, t, i) == Chain(h, event, t, j)
    requires Misses(h, event, t, k, |h| + 1)
    ensures MissesAt(h, event, t, k, c)
    decreases c
  {
    hide Chain, Find;
    if c <= |h| {
      assert MissesAt(h, event, t, k, c);
    } else {
      MissesBack(h, event, t, k, i, j, c - (j - i));
      Periodic(h, event, t, i, j, c - j);
    }
  }

  /** With more steps left than there are tables, a walk runs out of steps exactly when the
      chain loops for ever without meeting the key. */
  lemma TooLongIffLoops(h: Heap, event: bytes, t: nat, k: Value, hops: nat)
    requires SoundHeap(h) && t < |h| && hops >= MAX_TABLES
    ensures WalkFrom(h, event, t, k, hops) == TooLong <==> forall n :: n >= 0 ==> MissesAt(h, event, t, k, n)
  {
    hide Find, Handler, WalkFrom, SoundHeap;
    assert |h| <= MAX_TABLES by { SmallHeap(h); }
    var i, u := WalkEnds(h, event, t, k, hops);
    if WalkFrom(h, event, t, k, hops) == TooLong {
      forall n: nat ensures MissesAt(h, event, t, k, n) {
        MissesForever(h, event, t, k, n + 1);
      }
    }
    if forall n :: n >= 0 ==> MissesAt(h, event, t, k, n) {
      assert MissesAt(h, event, t, k, i) && MissesAt(h, event, t, k, i + 1);
      ChainNext(h, event, t, i);
    }
  }

  lemma SmallHeap(h: Heap)
    requires SoundHeap(h)
    ensures |h| <= MAX_TABLES
  {
  }

  lemma ChainNext(h: Heap, event: bytes, t: nat, i: nat)
    requires t < |h| && Chain(h, event, t, i + 1).Some?
    ensures Chain(h, event, t, i).Some? && Handler(h, Chain(h, event, t, i).value, event).Table?
    ensures Handler(h, Chain(h, event, t, i).value, event).t < |h|
  {
  }
}
