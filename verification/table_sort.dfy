/** `table.sort`: insertion sort of a table's values in place, and the default order. */
module TableSort {
  import opened Core
  import opened Values
  import opened TableSpec
  import opened Tables

  // ----- the default order -----

  /** Nil, booleans, numbers, strings, tables, functions, coroutines. */
  function Rank(v: Value): nat {
    match v
    case Nil => 0
    case Bool(_) => 1
    case Num(_) => 2
    case Str(_) => 3
    case Table(_) => 4
    case Co(_) => 6
    case _ => 5
  }

  /** Byte strings in lexicographic order, a proper prefix first. */
  predicate BytesLess(a: bytes, b: bytes) {
    if b == [] then false
    else if a == [] then true
    else if a[0] != b[0] then a[0] < b[0]
    else BytesLess(a[1..], b[1..])
  }

  predicate DefaultLess(a: Value, b: Value) {
    if Rank(a) != Rank(b) then Rank(a) < Rank(b)
    else
      match (a, b)
      case (Bool(x), Bool(y)) => !x && y
      case (Num(x), Num(y)) => x < y
      case (Str(x), Str(y)) => BytesLess(x, y)
      case _ => false
  }

  /** An order in which ties behave like equality. */
  ghost predicate StrictWeak(less: (Value, Value) -> bool) {
    (forall a, b :: less(a, b) ==> !less(b, a)) &&
    (forall a, b, c :: less(a, b) ==> less(a, c) || less(c, b))
  }

  lemma {:induction false} BytesAsymmetric(a: bytes, b: bytes)
    ensures BytesLess(a, b) ==> !BytesLess(b, a)
  {
    if a != [] && b != [] && a[0] == b[0] {
      BytesAsymmetric(a[1..], b[1..]);
    }
  }

  lemma {:induction false} BytesSplit(a: bytes, b: bytes, c: bytes)
    requires BytesLess(a, b)
    ensures BytesLess(a, c) || BytesLess(c, b)
  {
    if a != [] && c != [] && a[0] == b[0] == c[0] {
      BytesSplit(a[1..], b[1..], c[1..]);
    }
  }

  lemma {:induction false} BytesTotal(a: bytes, b: bytes)
    requires !BytesLess(a, b) && !BytesLess(b, a)
    ensures a == b
  {
    if a != [] && b != [] {
      BytesTotal(a[1..], b[1..]);
      assert a == [a[0]] + a[1..] && b == [b[0]] + b[1..];
    }
  }

  lemma DefaultIsStrictWeak()
    ensures StrictWeak(DefaultLess)
  {
    forall a, b | DefaultLess(a, b) ensures !DefaultLess(b, a) {
      if a.Str? && b.Str? {
        BytesAsymmetric(a.s, b.s);
      }
    }
    forall a, b, c | DefaultLess(a, b) ensures DefaultLess(a, c) || DefaultLess(c, b) {
      if a.Str? && b.Str? && c.Str? {
        BytesSplit(a.s, b.s, c.s);
      }
    }
  }

  /** Values of the default order tie only if they are equal, or both without an order of
      their own: tables, functions, coroutines. */
  lemma DefaultTies(a: Value, b: Value)
    requires !DefaultLess(a, b) && !DefaultLess(b, a)
    ensures Rank(a) == Rank(b) && (Rank(a) < 4 ==> a == b)
  {
    if a.Str? && b.Str? {
      BytesTotal(a.s, b.s);
    }
  }

  // ----- insertion sort -----

  /** Moving left past everything greater. */
  function Insert(s: seq<Value>, v: Value, less: (Value, Value) -> bool): seq<Value> {
    if s == [] then [v]
    else
      var n := |s| - 1;
      if less(v, s[n]) then Insert(s[..n], v, less) + [s[n]] else s + [v]
  }

  function Sorted(vs: seq<Value>, less: (Value, Value) -> bool): seq<Value> {
    if vs == [] then [] else Insert(Sorted(vs[..|vs| - 1], less), vs[|vs| - 1], less)
  }

  lemma {:induction false} InsertPermutes(s: seq<Value>, v: Value, less: (Value, Value) -> bool)
    ensures multiset(Insert(s, v, less)) == multiset(s) + multiset{v}
  {
    if s != [] {
      var n := |s| - 1;
      assert s == s[..n] + [s[n]];
      InsertPermutes(s[..n], v, less);
    }
  }

  /** Whatever the comparison says, no value is lost, added or changed. */
  lemma {:induction false} SortedPermutes(vs: seq<Value>, less: (Value, Value) -> bool)
    ensures multiset(Sorted(vs, less)) == multiset(vs) && |Sorted(vs, less)| == |vs|
  {
    if vs != [] {
      var n := |vs| - 1;
      assert vs == vs[..n] + [vs[n]];
      SortedPermutes(vs[..n], less);
      InsertPermutes(Sorted(vs[..n], less), vs[n], less);
      assert |multiset(Sorted(vs, less))| == |Sorted(vs, less)|;
    }
  }

  ghost predicate InOrder(s: seq<Value>, less: (Value, Value) -> bool) {
    forall i, j :: 0 <= i < j < |s| ==> !less(s[j], s[i])
  }

  lemma {:induction false} InsertMembers(s: seq<Value>, v: Value, less: (Value, Value) -> bool)
    ensures |Insert(s, v, less)| == |s| + 1
    ensures forall x :: x in Insert(s, v, less) ==> x == v || x in s
  {
    if s != [] {
      InsertMembers(s[..|s| - 1], v, less);
    }
  }

  lemma WeakSplit(less: (Value, Value) -> bool, a: Value, b: Value, c: Value)
    requires StrictWeak(less)
    ensures less(a, b) ==> less(a, c) || less(c, b)
  {
  }

  lemma {:induction false} InsertInOrder(s: seq<Value>, v: Value, less: (Value, Value) -> bool)
    requires StrictWeak(less) && InOrder(s, less)
    ensures InOrder(Insert(s, v, less), less)
  {
    if s != [] {
      var n := |s| - 1;
      if less(v, s[n]) {
        InsertInOrder(s[..n], v, less);
        InsertMembers(s[..n], v, less);
        var t := Insert(s[..n], v, less);
        forall i | 0 <= i < |t| ensures !less(s[n], t[i]) {
          assert t[i] in t;
          if t[i] != v {
            var k :| 0 <= k < n && s[..n][k] == t[i];
          }
        }
      } else {
        forall i | 0 <= i < |s| ensures !less(v, s[i]) {
          WeakSplit(less, v, s[i], s[n]);
        }
      }
    }
  }

  lemma {:induction false} SortedInOrder(vs: seq<Value>, less: (Value, Value) -> bool)
    requires StrictWeak(less)
    ensures InOrder(Sorted(vs, less), less)
  {
    if vs != [] {
      var n := |vs| - 1;
      SortedInOrder(vs[..n], less);
      InsertInOrder(Sorted(vs[..n], less), vs[n], less);
    }
  }

  /** The values that tie with `x`, in order. */
  function Ties(s: seq<Value>, x: Value, less: (Value, Value) -> bool): seq<Value> {
    if s == [] then []
    else
      var n := |s| - 1;
      Ties(s[..n], x, less) + if Tied(less, s[n], x) then [s[n]] else []
  }

  lemma {:induction false} InsertStable(s: seq<Value>, v: Value, x: Value, less: (Value, Value) -> bool)
    requires StrictWeak(less)
    ensures Ties(Insert(s, v, less), x, less) == Ties(s + [v], x, less)
  {
    hide Ties, StrictWeak;
    if s == [] {
      assert [v] == s + [v];
    } else {
      var n := |s| - 1;
      assert s == s[..n] + [s[n]];
      if less(v, s[n]) {
        InsertStable(s[..n], v, x, less);
        TiesSnoc(Insert(s[..n], v, less), s[n], x, less);
        TiesSnoc(s[..n], v, x, less);
        TiesSnoc(s[..n], s[n], x, less);
        TiesSnoc(s, v, x, less);
        TieOnce(less, v, s[n], x);
      }
    }
  }

  predicate Tied(less: (Value, Value) -> bool, a: Value, x: Value) {
    !less(a, x) && !less(x, a)
  }

  lemma TiesSnoc(s: seq<Value>, v: Value, x: Value, less: (Value, Value) -> bool)
    ensures Ties(s + [v], x, less) == if Tied(less, v, x) then Ties(s, x, less) + [v] else Ties(s, x, less)
  {
    assert (s + [v])[..|s|] == s;
  }

  /** Of two values in strict order at most one ties with `x`. */
  lemma TieOnce(less: (Value, Value) -> bool, a: Value, b: Value, x: Value)
    requires StrictWeak(less) && less(a, b)
    ensures !Tied(less, a, x) || !Tied(less, b, x)
  {
    WeakSplit(less, a, b, x);
  }

  /** Ties keep their order. */
  lemma {:induction false} SortedStable(vs: seq<Value>, x: Value, less: (Value, Value) -> bool)
    requires StrictWeak(less)
    ensures Ties(Sorted(vs, less), x, less) == Ties(vs, x, less)
  {
    if vs != [] {
      var n := |vs| - 1;
      hide Ties, StrictWeak, Insert;
      var s := Sorted(vs[..n], less);
      SortedStable(vs[..n], x, less);
      InsertStable(s, vs[n], x, less);
      assert vs == vs[..n] + [vs[n]];
      TiesSnoc(s, vs[n], x, less);
      TiesSnoc(vs[..n], vs[n], x, less);
    }
  }

  // ----- in place -----

  function ValuesOf(es: Entries): seq<Value> {
    seq(|es|, i requires 0 <= i < |es| => es[i].value)
  }

  /** Values under the keys 1, 2, and so on. */
  function Listed(vs: seq<Value>): Entries {
    seq(|vs|, i requires 0 <= i < |vs| => Slot(Num(i + 1), vs[i]))
  }

  lemma ListedSound(vs: seq<Value>, ws: seq<Value>)
    requires Nil !in vs && multiset(ws) == multiset(vs)
    ensures Sound(Listed(ws))
  {
    forall i | 0 <= i < |ws| ensures ws[i] != Nil {
      assert ws[i] in multiset(ws);
    }
  }

  lemma {:induction false} InsertSplit(s: seq<Value>, j: nat, v: Value, less: (Value, Value) -> bool)
    requires 0 < j <= |s| && less(v, s[j - 1])
    ensures Insert(s[..j], v, less) + s[j..] == Insert(s[..j - 1], v, less) + s[j - 1..]
  {
    assert s[..j][..j - 1] == s[..j - 1];
    assert s[j - 1..] == [s[j - 1]] + s[j..];
    var t := Insert(s[..j - 1], v, less);
    assert t + [s[j - 1]] + s[j..] == t + ([s[j - 1]] + s[j..]);
  }

  lemma {:induction false} InsertHere(s: seq<Value>, j: nat, v: Value, less: (Value, Value) -> bool)
    requires j <= |s| && (j > 0 ==> !less(v, s[j - 1]))
    ensures Insert(s[..j], v, less) == s[..j] + [v]
  {
  }

  /** Puts the value at `i` in its place among the sorted ones before it. */
  method InsertAt(slots: array<Slot>, i: nat, less: (Value, Value) -> bool)
    requires 0 < i < slots.Length
    modifies slots
    ensures ValuesOf(slots[..i + 1]) == Insert(ValuesOf(old(slots[..i])), old(slots[i]).value, less)
    ensures forall m :: i < m < slots.Length ==> slots[m] == old(slots[m])
  {
    hide Insert, ValuesOf;
    ghost var s := ValuesOf(slots[..i]);
    ValuesAt(slots[..i]);
    var v := slots[i].value;
    var j := i;
    InsertAll(s, v, less);
    while j > 0 && less(v, slots[j - 1].value)
      invariant 0 <= j <= i
      invariant forall m :: 0 <= m < j ==> slots[m].value == s[m]
      invariant forall m :: j < m <= i ==> slots[m].value == s[m - 1]
      invariant forall m :: i < m < slots.Length ==> slots[m] == old(slots[m])
      invariant Insert(s, v, less) == Insert(s[..j], v, less) + s[j..]
    {
      InsertSplit(s, j, v, less);
      slots[j] := slots[j].(value := slots[j - 1].value);
      j := j - 1;
    }
    InsertHere(s, j, v, less);
    slots[j] := slots[j].(value := v);
    Placed(slots[..i + 1], s, j, v);
  }

  lemma ValuesAt(es: Entries)
    ensures |ValuesOf(es)| == |es| && forall m :: 0 <= m < |es| ==> ValuesOf(es)[m] == es[m].value
  {
  }

  lemma {:induction false} InsertAll(s: seq<Value>, v: Value, less: (Value, Value) -> bool)
    ensures Insert(s, v, less) == Insert(s[..|s|], v, less) + s[|s|..]
  {
    assert s[..|s|] == s && s[|s|..] == [];
  }

  lemma {:induction false} Placed(es: Entries, s: seq<Value>, j: nat, v: Value)
    requires |es| == |s| + 1 && j <= |s| && es[j].value == v
    requires forall m :: 0 <= m < j ==> es[m].value == s[m]
    requires forall m :: j < m <= |s| ==> es[m].value == s[m - 1]
    ensures ValuesOf(es) == s[..j] + [v] + s[j..]
  {
  }

  /** Sorts the values; every slot, whatever its key was, ends up under its position. */
  method Sort(t: TableRec, less: (Value, Value) -> bool)
    requires t.Valid()
    modifies t.slots
    ensures t.Valid() && t.Contents() == Listed(Sorted(ValuesOf(old(t.Contents())), less))
  {
    hide Sorted, Sound;
    var len := t.len;
    ghost var vs := ValuesOf(t.slots[..len]);
    SortedStart(vs, less);
    NoNil(t.Contents());
    var i := 1;
    while i < len
      invariant 1 <= i && t.len == len && (len > 0 ==> i <= len)
      invariant len > 0 ==> ValuesOf(t.slots[..i]) == Sorted(vs[..i], less)
      invariant forall m :: i <= m < len ==> t.slots[m].value == vs[m]
    {
      SortedStep(vs, i, less);
      InsertAt(t.slots, i, less);
      i := i + 1;
    }
    assert vs[..len] == vs;
    ghost var ws := Sorted(vs, less);
    assert ValuesOf(t.slots[..len]) == ws;
    for k := 0 to len
      invariant t.len == len
      invariant forall m :: 0 <= m < k ==> t.slots[m] == Slot(Num(m + 1), ws[m])
      invariant forall m :: k <= m < len ==> t.slots[m].value == ws[m]
    {
      t.slots[k] := t.slots[k].(key := Num(k + 1));
    }
    SortedPermutes(vs, less);
    ListedSound(vs, ws);
    assert t.slots[..len] == Listed(ws);
  }

  lemma SortedStart(vs: seq<Value>, less: (Value, Value) -> bool)
    ensures Sorted([], less) == []
    ensures vs != [] ==> Sorted(vs[..1], less) == vs[..1]
  {
    if vs != [] {
      assert vs[..1][..0] == [];
    }
  }

  lemma {:induction false} SortedStep(vs: seq<Value>, i: nat, less: (Value, Value) -> bool)
    requires i < |vs|
    ensures Sorted(vs[..i + 1], less) == Insert(Sorted(vs[..i], less), vs[i], less)
  {
    assert vs[..i + 1][..i] == vs[..i];
  }

  lemma NoNil(es: Entries)
    requires Sound(es)
    ensures Nil !in ValuesOf(es)
  {
  }
}
