/** DNS queries and names (section 3.1 of RFC 1035). */
module Dns {
  import opened Core
  import opened Wire

  const DOT: byte := 46
  const BUF: nat := 256
  const HEADER: nat := 12
  const MAX_LABEL: nat := 63

  // ----- names and labels -----

  /** The index of the first dot at or after `from`, or the end. */
  function DotFrom(name: bytes, from: nat): (e: nat)
    requires from <= |name|
    ensures from <= e <= |name| && (e < |name| ==> name[e] == DOT) && DOT !in name[from..e]
    decreases |name| - from
  {
    if from == |name| || name[from] == DOT then from
    else
      var e := DotFrom(name, from + 1);
      assert name[from..e] == [name[from]] + name[from + 1..e];
      e
  }

  /** The pieces between dots; a name without dots is one piece. */
  function Split(name: bytes, from: nat): (ls: seq<bytes>)
    requires from <= |name|
    ensures ls != []
    decreases |name| - from
  {
    var e := DotFrom(name, from);
    [name[from..e]] + if e == |name| then [] else Split(name, e + 1)
  }

  function Join(ls: seq<bytes>): bytes {
    if ls == [] then []
    else if |ls| == 1 then ls[0]
    else ls[0] + [DOT] + Join(ls[1..])
  }

  lemma {:induction false} JoinMore(l: bytes, ls: seq<bytes>)
    requires ls != []
    ensures Join([l] + ls) == l + [DOT] + Join(ls)
  {
    assert ([l] + ls)[1..] == ls;
  }

  lemma {:induction false} SplitCases(name: bytes, from: nat)
    requires from <= |name|
    ensures var e := DotFrom(name, from);
            if e == |name| then Split(name, from) == [name[from..]]
            else Split(name, from) == [name[from..e]] + Split(name, e + 1)
  {
    hide DotFrom;
    var e := DotFrom(name, from);
    if e == |name| {
      assert name[from..e] == name[from..] && [name[from..e]] + [] == [name[from..]];
    }
  }

  lemma {:induction false} AroundDot(name: bytes, from: nat, e: nat)
    requires from <= e < |name| && name[e] == DOT
    ensures name[from..] == name[from..e] + [DOT] + name[e + 1..]
  {
  }

  /** Splitting loses nothing. */
  lemma {:induction false} JoinSplit(name: bytes, from: nat)
    requires from <= |name|
    ensures Join(Split(name, from)) == name[from..]
    decreases |name| - from
  {
    hide DotFrom, Join, Split;
    SplitCases(name, from);
    var e := DotFrom(name, from);
    if e < |name| {
      JoinSplit(name, e + 1);
      JoinMore(name[from..e], Split(name, e + 1));
      AroundDot(name, from, e);
    } else {
      JoinOne(name[from..]);
    }
  }

  lemma JoinOne(l: bytes)
    ensures Join([l]) == l
  {
  }

  /** Length-prefixed labels. */
  function Encode(ls: seq<bytes>): bytes
    requires ShortLabels(ls)
  {
    if ls == [] then [] else [|ls[0]|] + ls[0] + Encode(ls[1..])
  }

  predicate ShortLabel(l: bytes) {
    1 <= |l| <= MAX_LABEL
  }

  predicate ShortLabels(ls: seq<bytes>) {
    forall i :: 0 <= i < |ls| ==> ShortLabel(ls[i])
  }

  /** Labels from `off` up to and including the terminating zero; pointers are not followed. */
  function ReadLabels(p: bytes, off: nat): Option<(seq<bytes>, nat)>
    decreases |p| - off
  {
    if off >= |p| then None
    else if p[off] == 0 then Some(([], off + 1))
    else if p[off] > MAX_LABEL || off + 1 + p[off] > |p| then None
    else
      match ReadLabels(p, off + 1 + p[off])
      case None => None
      case Some(r) => Some(([p[off + 1..off + 1 + p[off]]] + r.0, r.1))
  }

  /** Where a name ends: behind its zero byte, or behind a compression pointer. */
  function NameEnd(p: bytes, len: nat, off: nat): Option<nat>
    requires len <= |p|
    decreases len - off
  {
    if off >= len then None
    else if p[off] == 0 then Some(off + 1)
    else if p[off] >= 0xC0 then Some(off + 2)
    else NameEnd(p, len, off + 1 + p[off])
  }

  method SkipName(p: bytes, len: nat, from: nat) returns (r: Option<nat>)
    requires len <= |p|
    ensures r == NameEnd(p, len, from)
  {
    var off := from;
    while true
      invariant NameEnd(p, len, off) == NameEnd(p, len, from)
      decreases len - off
    {
      if off >= len {
        return None;
      }
      var b := p[off];
      if b == 0 {
        return Some(off + 1);
      }
      if b >= 0xC0 {
        return Some(off + 2);
      }
      off := off + 1 + b;
    }
  }

  /** Where labels can be read, skipping ends where reading does. */
  lemma {:induction false} SkipAgrees(p: bytes, len: nat, off: nat)
    requires len <= |p| && ReadLabels(p[..len], off).Some?
    ensures NameEnd(p, len, off) == Some(ReadLabels(p[..len], off).value.1)
    decreases len - off
  {
    if p[off] != 0 {
      SkipAgrees(p, len, off + 1 + p[off]);
    }
  }

  /** Encoded labels read back. */
  lemma {:induction false} ReadEncoded(pre: bytes, ls: seq<bytes>, rest: bytes)
    requires ShortLabels(ls) && rest != [] && rest[0] == 0
    ensures ReadLabels(pre + Encode(ls) + rest, |pre|) == Some((ls, |pre| + |Encode(ls)| + 1))
    decreases |ls|
  {
    var p := pre + Encode(ls) + rest;
    if ls == [] {
      assert p[|pre|] == rest[0];
    } else {
      assert ShortLabel(ls[0]);
      var pre' := pre + [|ls[0]|] + ls[0];
      assert p == pre' + Encode(ls[1..]) + rest;
      ReadEncoded(pre', ls[1..], rest);
      assert p[|pre|] == |ls[0]| && p[|pre| + 1..|pre'|] == ls[0];
      assert [ls[0]] + ls[1..] == ls;
    }
  }

  lemma {:induction false} EncodeSnoc(ls: seq<bytes>, l: bytes)
    requires ShortLabels(ls) && ShortLabel(l)
    ensures Encode(ls + [l]) == Encode(ls) + [|l|] + l
    decreases |ls|
  {
    if ls == [] {
      assert ([] + [l])[1..] == [];
    } else {
      assert (ls + [l])[1..] == ls[1..] + [l];
      assert ShortLabel(ls[0]);
      EncodeSnoc(ls[1..], l);
    }
  }

  // ----- queries -----

  function Header(id: nat): bytes
    requires id < 65536
  {
    Be16(id) + [1, 0, 0, 1, 0, 0, 0, 0, 0, 0]
  }

  /** QTYPE A and QCLASS IN. */
  const QUESTION: bytes := [0, 1, 0, 1]

  function Query(id: nat, ls: seq<bytes>): bytes
    requires id < 65536 && ShortLabels(ls)
  {
    Header(id) + Encode(ls) + [0] + QUESTION
  }

  /** Names whose labels have 1 to 63 bytes and whose encoding stays inside the buffer. */
  predicate Accepted(name: bytes) {
    ShortLabels(Split(name, 0)) && |name| <= BUF - HEADER - 2
  }

  method NextDot(name: bytes, from: nat) returns (e: nat)
    requires from <= |name|
    ensures e == DotFrom(name, from)
  {
    e := from;
    while e < |name| && name[e] != DOT
      invariant from <= e <= |name| && DotFrom(name, e) == DotFrom(name, from)
    {
      e := e + 1;
    }
  }

  /** The pieces from `from` on; none behind the last one. */
  function Rest(name: bytes, from: nat): seq<bytes> {
    if from > |name| then [] else Split(name, from)
  }

  lemma {:induction false} RestStep(name: bytes, from: nat)
    requires from <= |name|
    ensures Rest(name, from) == [name[from..DotFrom(name, from)]] + Rest(name, DotFrom(name, from) + 1)
  {
    hide DotFrom, Split;
    SplitCases(name, from);
    var e := DotFrom(name, from);
    if e == |name| {
      assert name[from..e] == name[from..] && [name[from..e]] + [] == [name[from..]];
    }
  }

  lemma {:induction false} SplitStep(name: bytes, from: nat, done: seq<bytes>)
    requires from <= |name| && done + Rest(name, from) == Split(name, 0)
    ensures var e := DotFrom(name, from);
            |done| < |Split(name, 0)| && Split(name, 0)[|done|] == name[from..e] &&
            done + [name[from..e]] + Rest(name, e + 1) == Split(name, 0)
  {
    hide DotFrom, Split, Rest;
    RestStep(name, from);
    Regroup(done, name[from..DotFrom(name, from)], Rest(name, DotFrom(name, from) + 1));
  }

  lemma {:induction false} Regroup(done: seq<bytes>, l: bytes, rest: seq<bytes>)
    ensures done + ([l] + rest) == done + [l] + rest && (done + ([l] + rest))[|done|] == l
  {
    assert (done + ([l] + rest))[|done|] == ([l] + rest)[0];
  }

  lemma NothingEncoded(id: nat, name: bytes)
    requires id < 65536
    ensures ShortLabels([]) && Encode([]) == [] && |Header(id)| == HEADER
    ensures [] + Rest(name, 0) == Split(name, 0)
  {
  }

  lemma NotShort(ls: seq<bytes>, i: nat)
    requires i < |ls| && !ShortLabel(ls[i])
    ensures !ShortLabels(ls)
  {
  }

  lemma ShortSnoc(ls: seq<bytes>, l: bytes)
    requires ShortLabels(ls) && ShortLabel(l)
    ensures ShortLabels(ls + [l])
  {
  }

  /** Zero for a name that is not accepted. The room checked for in the buffer leaves out the
      terminator and the question, so writing those may panic. */
  method BuildQuery(id: nat, name: bytes, buf: array<byte>) returns (r: Checked<nat>)
    requires id < 65536 && buf.Length == BUF
    modifies buf
    ensures r.Panicked? <==> Accepted(name) && |name| > BUF - HEADER - 6
    ensures r.Returned? ==> (r.value == 0 <==> !Accepted(name))
    ensures r.Returned? && r.value != 0 ==>
              r.value == |name| + 18 && buf[..r.value] == Query(id, Split(name, 0))
  {
    hide Encode, Split, DotFrom, Header, ShortLabels, Rest;
    NothingEncoded(id, name);
    Put(buf, 0, Header(id));
    var off: nat, from: nat := HEADER, 0;
    ghost var done: seq<bytes> := [];
    while from <= |name|
      invariant from <= |name| + 1 && off == HEADER + from && off < BUF
      invariant ShortLabels(done) && done + Rest(name, from) == Split(name, 0)
      invariant |Encode(done)| == from && buf[..off] == Header(id) + Encode(done)
    {
      var e := NextDot(name, from);
      var piece := name[from..e];
      SplitStep(name, from, done);
      if |piece| == 0 || |piece| > MAX_LABEL || off + 1 + |piece| >= buf.Length {
        if !ShortLabel(piece) {
          NotShort(Split(name, 0), |done|);
        }
        return Returned(0);
      }
      EncodeSnoc(done, piece);
      ShortSnoc(done, piece);
      PutLabel(buf, off, piece);
      assert buf[..off + 1 + |piece|] == Header(id) + (Encode(done) + [|piece|] + piece);
      done := done + [piece];
      off, from := off + 1 + |piece|, e + 1;
    }
    AllDone(name, from, done);
    if off + 5 > buf.Length {
      return Panicked;
    }
    Put(buf, off, [0]);
    Put(buf, off + 1, QUESTION);
    return Returned(off + 5);
  }

  lemma AllDone(name: bytes, from: nat, done: seq<bytes>)
    requires from == |name| + 1 && done + Rest(name, from) == Split(name, 0)
    ensures done == Split(name, 0)
  {
    assert done + [] == done;
  }

  method PutLabel(buf: array<byte>, at: nat, l: bytes)
    requires at + 1 + |l| <= buf.Length && |l| < 256
    modifies buf
    ensures buf[..at + 1 + |l|] == old(buf[..at]) + [|l|] + l
  {
    Put(buf, at, [|l|]);
    Put(buf, at + 1, l);
  }

  /** A query built for a name holds that name, and its end is where QTYPE starts. */
  lemma QueryRoundTrip(id: nat, name: bytes)
    requires id < 65536 && Accepted(name)
    ensures var q := Query(id, Split(name, 0));
            var labels := ReadLabels(q, HEADER);
            labels.Some? && Join(labels.value.0) == name && labels.value.1 == |q| - 4 &&
            NameEnd(q, |q|, HEADER) == Some(|q| - 4) && q[|q| - 4..] == QUESTION
  {
    var ls := Split(name, 0);
    var q := Query(id, ls);
    assert q == Header(id) + Encode(ls) + ([0] + QUESTION);
    ReadEncoded(Header(id), ls, [0] + QUESTION);
    assert q[..|q|] == q;
    SkipAgrees(q, |q|, HEADER);
    JoinSplit(name, 0);
    assert name[0..] == name;
  }
}
