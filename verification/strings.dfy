/** The interning string arena and its packed references. */
module Strings {
  import opened Core

  const MAX_STRINGS: nat := 256

  datatype StrReg = StrReg(off: nat, len: nat)

  datatype Failure = TooManyStrings | Overflow

  /** A reference: offset and length in 16 bits each. */
  function StrRef(off: nat, len: nat): nat {
    off * 65536 + len
  }

  function Unpack(r: nat): (nat, nat) {
    (r / 65536, r % 65536)
  }

  /** Packing loses nothing. */
  lemma PackRoundTrip(off: nat, len: nat)
    requires off < 65536 && len < 65536
    ensures Unpack(StrRef(off, len)) == (off, len) && StrRef(off, len) < 0x1_0000_0000
    ensures StrRef(off, len) / 0x1_0000 == off && StrRef(off, len) % 0x1_0000 == len
  {
  }

  /** The strings one after another. */
  function Flat(table: seq<bytes>): bytes {
    if table == [] then [] else Flat(table[..|table| - 1]) + table[|table| - 1]
  }

  function RegOf(table: seq<bytes>, i: nat): StrReg
    requires i < |table|
  {
    StrReg(|Flat(table[..i])|, |table[i]|)
  }

  function RefOf(table: seq<bytes>, i: nat): nat
    requires i < |table|
  {
    StrRef(RegOf(table, i).off, RegOf(table, i).len)
  }

  ghost predicate Distinct(table: seq<bytes>) {
    forall i, j :: 0 <= i < j < |table| ==> table[i] != table[j]
  }

  /** A string lies in the arena where its register says. */
  lemma {:induction false} FlatAt(table: seq<bytes>, i: nat)
    requires i < |table|
    ensures var g := RegOf(table, i);
            g.off + g.len <= |Flat(table)| && Flat(table)[g.off..g.off + g.len] == table[i]
    decreases |table|
  {
    var n := |table| - 1;
    if i < n {
      FlatAt(table[..n], i);
      assert table[..n][..i] == table[..i];
      var g := RegOf(table, i);
      assert Flat(table)[g.off..g.off + g.len] == Flat(table[..n])[g.off..g.off + g.len];
    }
  }

  /** Strings occupy disjoint ranges, in the order they were registered. */
  lemma {:induction false} RangesApart(table: seq<bytes>, i: nat, j: nat)
    requires i < j < |table|
    ensures RegOf(table, i).off + RegOf(table, i).len <= RegOf(table, j).off
    decreases j
  {
    assert table[..i + 1][..i] == table[..i];
    if i + 1 < j {
      RangesApart(table, i, j - 1);
      assert table[..j][..j - 1] == table[..j - 1];
    }
  }

  /** References are equal exactly when the strings are. */
  lemma RefsDistinct(table: seq<bytes>, i: nat, j: nat)
    requires Distinct(table) && |Flat(table)| <= STR_CAP && i < |table| && j < |table|
    ensures RefOf(table, i) == RefOf(table, j) <==> table[i] == table[j]
    ensures Unpack(RefOf(table, i)) == (RegOf(table, i).off, RegOf(table, i).len)
  {
    hide Flat, StrRef, Unpack;
    FlatAt(table, i);
    FlatAt(table, j);
    var a, b := RegOf(table, i), RegOf(table, j);
    PackRoundTrip(a.off, a.len);
    PackRoundTrip(b.off, b.len);
    if i < j {
      RangesApart(table, i, j);
    } else if j < i {
      RangesApart(table, j, i);
    }
  }

  // ----- registering strings -----

  /** The strings registered after interning `s`. */
  function Added(table: seq<bytes>, s: bytes): seq<bytes> {
    if s in table then table else table + [s]
  }

  function AddAll(table: seq<bytes>, list: seq<bytes>): seq<bytes> {
    if list == [] then table else Added(AddAll(table, list[..|list| - 1]), list[|list| - 1])
  }

  /** The registers and the arena have room for these strings. */
  predicate CanHold(table: seq<bytes>) {
    |table| <= MAX_STRINGS && |Flat(table)| <= STR_CAP
  }

  lemma AddNone(table: seq<bytes>)
    ensures AddAll(table, []) == table
  {}

  lemma AddOne(table: seq<bytes>, s: bytes)
    ensures AddAll(table, [s]) == Added(table, s)
  {
    assert [s][..0] == [];
  }

  lemma {:induction false} AddInTurn(table: seq<bytes>, a: seq<bytes>, b: seq<bytes>)
    ensures AddAll(table, a + b) == AddAll(AddAll(table, a), b)
  {
    if b == [] {
      assert a + b == a;
    } else {
      var n := |b| - 1;
      assert (a + b)[..|a + b| - 1] == a + b[..n];
      AddInTurn(table, a, b[..n]);
    }
  }

  /** What does not fit does not fit with more strings either. */
  lemma {:induction false} FewerFit(table: seq<bytes>, a: seq<bytes>, b: seq<bytes>)
    requires CanHold(AddAll(table, a + b))
    ensures CanHold(AddAll(table, a))
  {
    if b == [] {
      assert a + b == a;
    } else {
      var n := |b| - 1;
      assert (a + b)[..|a + b| - 1] == a + b[..n];
      var t := AddAll(table, a + b[..n]);
      FlatSnoc(t, b[n]);
      FewerFit(table, a, b[..n]);
    }
  }

  /** One more string interned. */
  lemma AddLast(table: seq<bytes>, start: seq<bytes>, list: seq<bytes>, i: nat)
    requires i < |list| && table == AddAll(start, list[..i])
    ensures AddAll(start, list[..i + 1]) == Added(table, list[i])
    ensures CanHold(AddAll(start, list)) ==> CanHold(Added(table, list[i]))
  {
    hide CanHold, Added;
    assert list[..i + 1][..i] == list[..i];
    assert list == list[..i + 1] + list[i + 1..];
    if CanHold(AddAll(start, list)) {
      FewerFit(start, list[..i + 1], list[i + 1..]);
    }
  }

  /** The strings registered are those there were and those interned, each once. */
  lemma {:induction false} AddAllIs(table: seq<bytes>, list: seq<bytes>)
    requires Distinct(table)
    ensures Distinct(AddAll(table, list))
    ensures forall s :: s in AddAll(table, list) <==> s in table || s in list
  {
    if list != [] {
      var n := |list| - 1;
      AddAllIs(table, list[..n]);
      assert list == list[..n] + [list[n]];
    }
  }

  class Arena {
    const strings: array<byte>
    var next: nat
    var regs: seq<StrReg>
    /** The strings registered so far, in order. */
    ghost var table: seq<bytes>

    ghost predicate Valid()
      reads this, strings
    {
      strings.Length == STR_CAP && next <= STR_CAP && strings[..next] == Flat(table) && Distinct(table) &&
      |regs| == |table| <= MAX_STRINGS && forall i :: 0 <= i < |regs| ==> regs[i] == RegOf(table, i)
    }

    constructor ()
      ensures Valid() && table == [] && fresh(strings)
    {
      strings := new byte[STR_CAP](_ => 0);
      next, regs, table := 0, [], [];
    }

    /** A registered string lies in the arena where its register says. */
    lemma Registered(i: nat)
      requires Valid() && i < |table|
      ensures regs[i].off + regs[i].len <= next && strings[regs[i].off..regs[i].off + regs[i].len] == table[i]
    {
      hide Flat, Distinct;
      FlatAt(table, i);
      var all, end := strings[..], regs[i].off + regs[i].len;
      assert all[..next] == strings[..next] && all[regs[i].off..end] == strings[regs[i].off..end];
      SliceOfPrefix(all, next, regs[i].off, end);
    }

    /** Whether the bytes at `off` are `s`. */
    method SameBytes(s: bytes, off: nat) returns (same: bool)
      requires off + |s| <= strings.Length
      ensures same <==> strings[off..off + |s|] == s
    {
      for j := 0 to |s|
        invariant forall k :: 0 <= k < j ==> strings[off + k] == s[k]
      {
        if strings[off + j] != s[j] {
          assert strings[off..off + |s|][j] != s[j];
          return false;
        }
      }
      return true;
    }

    method StrBytes(r: nat, ghost i: nat) returns (s: bytes)
      requires Valid() && i < |table| && r == RefOf(table, i)
      ensures s == table[i]
    {
      var off, len := r / 65536, r % 65536;
      RefsDistinct(table, i, i);
      Registered(i);
      return strings[off..off + len];
    }

    /** A string already registered gives its reference again; a new one is appended. */
    method Intern(s: bytes) returns (r: Result<nat, Failure>)
      requires Valid()
      modifies this`next, this`regs, this`table, strings
      ensures Valid()
      ensures r.Err? <==> !CanHold(Added(old(table), s))
      ensures table == if r.Err? then old(table) else Added(old(table), s)
      ensures r.Ok? ==> exists i :: 0 <= i < |table| && table[i] == s && r.value == RefOf(table, i)
    {
      hide Flat, Distinct, StrRef;
      for i := 0 to |regs|
        invariant Valid() && table == old(table) && regs == old(regs)
        invariant forall k :: 0 <= k < i ==> table[k] != s
      {
        var reg := regs[i];
        Registered(i);
        if reg.len == |s| {
          var same := SameBytes(s, reg.off);
          if same {
            return Ok(StrRef(reg.off, reg.len));
          }
        }
      }
      FlatSnoc(table, s);
      if |regs| >= MAX_STRINGS {
        return Err(TooManyStrings);
      }
      var end := next + |s|;
      if end > STR_CAP {
        return Err(Overflow);
      }
      var off := next;
      ghost var before := strings[..off];
      forall k | 0 <= k < |s| {
        strings[off + k] := s[k];
      }
      assert strings[..end] == before + s;
      regs := regs + [StrReg(off, |s|)];
      next := end;
      table := table + [s];
      r := Ok(StrRef(off, |s|));
      assert table[|regs| - 1] == s && r.value == RefOf(table, |regs| - 1);
    }
  }

  lemma {:induction false} FlatSnoc(table: seq<bytes>, s: bytes)
    ensures Flat(table + [s]) == Flat(table) + s
    ensures Distinct(table) && s !in table ==> Distinct(table + [s])
    ensures forall i :: 0 <= i < |table| ==> RegOf(table + [s], i) == RegOf(table, i)
    ensures RegOf(table + [s], |table|) == StrReg(|Flat(table)|, |s|)
  {
    var more := table + [s];
    assert more[..|table|] == table;
    forall i | 0 <= i < |table| ensures RegOf(more, i) == RegOf(table, i) {
      assert more[..i] == table[..i];
    }
  }

  /** Over any run: equal strings get equal references, different strings different ones, and
      every reference still reads back as its string at the end. */
  method InternAll(list: seq<bytes>) returns (arena: Arena, refs: seq<nat>)
    ensures arena.Valid() && |refs| <= |list|
    ensures forall i, j :: 0 <= i < |refs| && 0 <= j < |refs| ==> (refs[i] == refs[j] <==> list[i] == list[j])
    ensures forall i :: 0 <= i < |refs| ==> Issued(arena.table, list[i], refs[i])
    ensures arena.table == AddAll([], list[..|refs|])
    ensures |refs| == |list| <==> CanHold(AddAll([], list))
  {
    hide Flat, Distinct, RefOf, Issued, AddAll, Added, CanHold;
    arena := new Arena();
    refs := [];
    AddNone([]);
    assert list[..0] == [];
    while |refs| < |list|
      invariant arena.Valid() && fresh(arena) && fresh(arena.strings) && |refs| <= |list|
      invariant arena.table == AddAll([], list[..|refs|])
      invariant AllIssued(arena.table, list, refs)
    {
      var n := |refs|;
      ghost var table := arena.table;
      AddLast(table, [], list, n);
      var r := arena.Intern(list[n]);
      if r.Err? {
        AllIssuedApart(arena, list, refs);
        return;
      }
      AllIssuedSnoc(table, list, refs, r.value);
      refs := refs + [r.value];
    }
    assert list[..|refs|] == list;
    ValidHolds(arena);
    AllIssuedApart(arena, list, refs);
  }

  /** Every string interned so far has its reference. */
  ghost predicate AllIssued(table: seq<bytes>, list: seq<bytes>, refs: seq<nat>) {
    |refs| <= |list| && forall i :: 0 <= i < |refs| ==> Issued(table, list[i], refs[i])
  }

  lemma AllIssuedSnoc(table: seq<bytes>, list: seq<bytes>, refs: seq<nat>, r: nat)
    requires |refs| < |list| && AllIssued(table, list, refs)
    requires exists i :: 0 <= i < |Added(table, list[|refs|])| && Added(table, list[|refs|])[i] == list[|refs|] &&
                         r == RefOf(Added(table, list[|refs|]), i)
    ensures AllIssued(Added(table, list[|refs|]), list, refs + [r])
  {
    hide RefOf;
    var more := Added(table, list[|refs|]);
    forall i | 0 <= i < |refs| ensures Issued(more, list[i], refs[i]) {
      assert Issued(table, list[i], refs[i]);
      IssuedStays(table, more, list[i], refs[i]);
    }
  }

  lemma AllIssuedApart(arena: Arena, list: seq<bytes>, refs: seq<nat>)
    requires arena.Valid() && AllIssued(arena.table, list, refs)
    ensures forall i, j :: 0 <= i < |refs| && 0 <= j < |refs| ==> (refs[i] == refs[j] <==> list[i] == list[j])
    ensures forall i :: 0 <= i < |refs| ==> Issued(arena.table, list[i], refs[i])
  {
    hide Flat, RefOf, Issued, Distinct;
    ValidHolds(arena);
    forall i, j | 0 <= i < |refs| && 0 <= j < |refs| ensures refs[i] == refs[j] <==> list[i] == list[j] {
      IssuedApart(arena.table, list[i], refs[i], list[j], refs[j]);
    }
  }

  lemma ValidHolds(arena: Arena)
    requires arena.Valid()
    ensures Distinct(arena.table) && CanHold(arena.table) && |Flat(arena.table)| <= STR_CAP
  {}

  /** `r` is the reference of `s`. */
  ghost predicate Issued(table: seq<bytes>, s: bytes, r: nat) {
    exists i :: 0 <= i < |table| && table[i] == s && r == RefOf(table, i)
  }

  lemma IssuedStays(table: seq<bytes>, more: seq<bytes>, s: bytes, r: nat)
    requires Issued(table, s, r) && (more == table || (|more| == |table| + 1 && more[..|table|] == table))
    ensures Issued(more, s, r)
  {
    hide Flat;
    var i :| 0 <= i < |table| && table[i] == s && r == RefOf(table, i);
    assert more[..i] == table[..i] && more[i] == s;
    assert RefOf(more, i) == r;
  }

  lemma IssuedApart(table: seq<bytes>, s: bytes, r: nat, s': bytes, r': nat)
    requires Distinct(table) && |Flat(table)| <= STR_CAP && Issued(table, s, r) && Issued(table, s', r')
    ensures r == r' <==> s == s'
  {
    hide Flat, RefOf, Distinct;
    var i :| 0 <= i < |table| && table[i] == s && r == RefOf(table, i);
    var j :| 0 <= j < |table| && table[j] == s' && r' == RefOf(table, j);
    RefsDistinct(table, i, j);
  }
}
