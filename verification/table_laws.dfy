/** What programs see of tables: the events' names, one step of a chain, and the default order
    written out for each kind of value. */
module TableLaws {
  import opened Core
  import opened Values
  import opened TableSpec
  import opened Tables
  import opened TableSort

  // ----- metatables -----

  lemma EventNames()
    ensures INDEX == Ascii("__index") && NEWINDEX == Ascii("__newindex") && METATABLE == Ascii("__metatable")
  {}

  /** The value under a name in the metatable of table `t`. */
  predicate HasEvent(h: Heap, t: nat, name: bytes, f: Value) {
    t < |h| && h[t].mt.Some? && h[t].mt.value < |h| && Slot(Str(name), f) in h[h[t].mt.value].entries
  }

  /** No metatable, or nothing under that name in it. */
  predicate NoEvent(h: Heap, t: nat, name: bytes) {
    t < |h| &&
    (h[t].mt.Some? ==> h[t].mt.value < |h| && forall e :: e in h[h[t].mt.value].entries ==> e.key != Str(name))
  }

  predicate HasKey(h: Heap, t: nat, k: Value) {
    t < |h| && exists e :: e in h[t].entries && e.key == k
  }

  lemma FindOf(es: Entries, k: Value)
    requires Sound(es)
    ensures Find(es, k).Some? <==> exists e :: e in es && e.key == k
    ensures forall v :: Slot(k, v) in es ==> Get(es, k) == v && v != Nil
    ensures (forall e :: e in es ==> e.key != k) ==> Get(es, k) == Nil
  {
    if e :| e in es && e.key == k {
      var i :| 0 <= i < |es| && es[i] == e;
      assert es[i].key == k;
    }
    forall v | Slot(k, v) in es ensures Get(es, k) == v && v != Nil {
      var i :| 0 <= i < |es| && es[i] == Slot(k, v);
      assert es[i].key == k;
      var j := Find(es, k);
      assert j.Some? && es[j.value].key == k;
    }
  }

  lemma KeyFound(h: Heap, t: nat, k: Value)
    requires SoundHeap(h) && t < |h|
    ensures HasKey(h, t, k) <==> Find(h[t].entries, k).Some?
  {
    assert SoundView(h[t], |h|);
    FindOf(h[t].entries, k);
  }

  lemma HandlerIs(h: Heap, t: nat, name: bytes)
    requires SoundHeap(h) && t < |h|
    ensures forall f :: HasEvent(h, t, name, f) ==> Handler(h, t, name) == f
    ensures NoEvent(h, t, name) ==> Handler(h, t, name) == Nil
  {
    hide Find, Get, Sound;
    assert SoundView(h[t], |h|);
    if h[t].mt.Some? && h[t].mt.value < |h| {
      assert SoundView(h[h[t].mt.value], |h|);
      FindOf(h[h[t].mt.value].entries, Str(name));
    }
  }

  /** `t[k]`: the table's own value; without one, what the table under `__index` in its metatable
      has, looked up the same way; nil where there is no `__index`. */
  lemma ReadMeans(h: Heap, t: nat, k: Value, hops: nat)
    requires SoundHeap(h) && t < |h|
    ensures forall v :: Slot(k, v) in h[t].entries ==> ReadOf(h, k, WalkFrom(h, INDEX, t, k, hops)) == Ok(v)
    ensures !HasKey(h, t, k) && NoEvent(h, t, Ascii("__index")) ==>
              ReadOf(h, k, WalkFrom(h, INDEX, t, k, hops)) == Ok(Nil)
    ensures forall u: nat :: !HasKey(h, t, k) && HasEvent(h, t, Ascii("__index"), Table(u)) && u < |h| ==>
              ReadOf(h, k, WalkFrom(h, INDEX, t, k, hops)) ==
              if hops == 0 then Err(ChainTooLong) else ReadOf(h, k, WalkFrom(h, INDEX, u, k, hops - 1))
  {
    hide Find, Get, Sound, Handler, HasEvent, NoEvent;
    EventNames();
    assert SoundView(h[t], |h|);
    FindOf(h[t].entries, k);
    HandlerIs(h, t, INDEX);
    WalkStep(h, INDEX, t, k, hops);
  }

  /** `t[k] = v`: into the table itself if it has the key or no `__newindex`, else into the table
      under `__newindex` in its metatable, the same way. */
  lemma WriteMeans(h: Heap, t: nat, k: Value, v: Value, hops: nat)
    requires SoundHeap(h) && t < |h|
    ensures HasKey(h, t, k) || NoEvent(h, t, Ascii("__newindex")) ==>
              var w := WalkFrom(h, NEWINDEX, t, k, hops);
              (w == Hit(t) || w == End(t)) && WriteOf(h, k, v, w) == SetOutcome(h[t].entries, k, v)
    ensures forall u: nat :: !HasKey(h, t, k) && HasEvent(h, t, Ascii("__newindex"), Table(u)) && u < |h| ==>
              WalkFrom(h, NEWINDEX, t, k, hops) == if hops == 0 then TooLong else WalkFrom(h, NEWINDEX, u, k, hops - 1)
  {
    hide Find, Get, Sound, SoundHeap, Handler, HasKey, HasEvent, NoEvent, SetOutcome, WalkFrom;
    EventNames();
    KeyFound(h, t, k);
    HandlerIs(h, t, NEWINDEX);
    WalkStep(h, NEWINDEX, t, k, hops);
  }

  // ----- the default order -----

  /** `a` comes before `b` in a dictionary. */
  ghost predicate Before(a: bytes, b: bytes) {
    exists k :: 0 <= k <= |a| && k < |b| && a[..k] == b[..k] && (k == |a| || a[k] < b[k])
  }

  lemma SameHead(a: bytes, b: bytes, k: nat)
    requires k <= |a| && k <= |b|
    ensures k > 0 && a[..k] == b[..k] ==> a[0] == b[0]
  {
    if k > 0 {
      assert a[0] == a[..k][0] && b[0] == b[..k][0];
    }
  }

  lemma {:induction false} StringsInOrder(a: bytes, b: bytes)
    ensures BytesLess(a, b) <==> Before(a, b)
    decreases |a|
  {
    if a != [] && b != [] && a[0] == b[0] {
      StringsInOrder(a[1..], b[1..]);
      if Before(a[1..], b[1..]) {
        var k :| 0 <= k <= |a[1..]| && k < |b[1..]| && a[1..][..k] == b[1..][..k] && (k == |a[1..]| || a[1..][k] < b[1..][k]);
        assert a[..k + 1] == [a[0]] + a[1..][..k] && b[..k + 1] == [b[0]] + b[1..][..k];
        assert a[..k + 1] == b[..k + 1] && (k + 1 == |a| || a[k + 1] < b[k + 1]);
      }
      if Before(a, b) {
        var k :| 0 <= k <= |a| && k < |b| && a[..k] == b[..k] && (k == |a| || a[k] < b[k]);
        assert k > 0;
        assert a[1..][..k - 1] == a[..k][1..] == b[..k][1..] == b[1..][..k - 1];
        assert k - 1 == |a[1..]| || a[1..][k - 1] < b[1..][k - 1];
      }
    } else if b != [] {
      assert a[..0] == b[..0];
      if a != [] && Before(a, b) {
        var k :| 0 <= k <= |a| && k < |b| && a[..k] == b[..k] && (k == |a| || a[k] < b[k]);
        SameHead(a, b, k);
      }
    }
  }

  /** Numbers ascend, false comes before true, strings are as in a dictionary; nil, booleans,
      numbers, strings, tables, functions and coroutines follow one another. */
  lemma DefaultMeans(x: int, y: int, p: bool, q: bool, s: bytes, t: bytes, n: nat, m: nat)
    ensures DefaultLess(Num(x), Num(y)) <==> x < y
    ensures DefaultLess(Bool(p), Bool(q)) <==> !p && q
    ensures DefaultLess(Str(s), Str(t)) <==> Before(s, t)
    ensures !DefaultLess(Nil, Nil) && !DefaultLess(Table(n), Table(m)) && !DefaultLess(Func(n), Closure(m))
    ensures DefaultLess(Nil, Bool(p)) && DefaultLess(Bool(p), Num(x)) && DefaultLess(Num(x), Str(s)) &&
            DefaultLess(Str(s), Table(n)) && DefaultLess(Table(n), Func(m)) && DefaultLess(Table(n), Closure(m)) &&
            DefaultLess(Func(n), Co(m)) && DefaultLess(Closure(n), Co(m))
  {
    StringsInOrder(s, t);
  }

  /** A table of numbers is sorted in ascending order. */
  lemma NumbersAscend(vs: seq<Value>, i: nat, j: nat)
    requires (forall k :: 0 <= k < |vs| ==> vs[k].Num?) && i < j < |vs|
    ensures var out := Sorted(vs, DefaultLess);
            |out| == |vs| && multiset(out) == multiset(vs) && out[i].Num? && out[j].Num? && out[i].n <= out[j].n
  {
    hide Sorted, StrictWeak;
    var out := Sorted(vs, DefaultLess);
    SortedPermutes(vs, DefaultLess);
    DefaultIsStrictWeak();
    SortedInOrder(vs, DefaultLess);
    assert out[i] in multiset(out) && out[j] in multiset(out);
    assert out[i] in vs && out[j] in vs;
  }
}
