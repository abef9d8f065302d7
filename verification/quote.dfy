/** `%q` quoting of strings, and the lexer's string literals. */
module Quote {
  import opened Core

  const QUOTE: byte := 34
  const BACKSLASH: byte := 92
  const BUF: nat := 256

  datatype Error = ResultTooLong | Unterminated | BadEscape | StringTooLong

  // ----- quoting -----

  /** Printable ASCII, tab, newline and carriage return. */
  predicate Readable(b: byte) {
    b == 9 || b == 10 || b == 13 || 32 <= b <= 126
  }

  predicate AllReadable(s: bytes) {
    forall i :: 0 <= i < |s| ==> Readable(s[i])
  }

  function Escape(b: byte): (e: bytes)
    ensures 1 <= |e| <= 4
  {
    if b == BACKSLASH then [BACKSLASH, BACKSLASH]
    else if b == QUOTE then [BACKSLASH, QUOTE]
    else if b == 10 then [BACKSLASH, 110]
    else if b == 13 then [BACKSLASH, 114]
    else if b == 9 then [BACKSLASH, 116]
    else if 32 <= b <= 126 then [b]
    else [BACKSLASH, 48 + b / 100, 48 + b % 100 / 10, 48 + b % 10]
  }

  function Quoted(s: bytes): bytes {
    if s == [] then [] else Escape(s[0]) + Quoted(s[1..])
  }

  lemma {:induction false} QuotedSnoc(s: bytes, b: byte)
    ensures Quoted(s + [b]) == Quoted(s) + Escape(b)
  {
    if s == [] {
      assert ([] + [b])[1..] == [];
    } else {
      assert (s + [b])[1..] == s[1..] + [b];
      QuotedSnoc(s[1..], b);
    }
  }

  /** Four free bytes are asked for ahead of every source byte. */
  predicate RoomFor(s: bytes, cap: nat) {
    cap >= 2 && (s != [] ==> |Quoted(s[..|s| - 1])| + 5 <= cap) && |Quoted(s)| + 2 <= cap
  }

  method QuoteString(s: bytes, out: array<byte>) returns (r: Result<nat, Error>)
    modifies out
    ensures r.Ok? <==> RoomFor(s, out.Length)
    ensures r.Ok? ==> r.value <= out.Length && out[..r.value] == [QUOTE] + Quoted(s) + [QUOTE]
    ensures r.Err? ==> r.error == ResultTooLong
  {
    hide Quoted, Escape;
    NothingQuoted();
    if out.Length < 2 {
      return Err(ResultTooLong);
    }
    var o := 0;
    out[o] := QUOTE;
    o := o + 1;
    for i := 0 to |s|
      invariant 0 <= o <= out.Length && o == 1 + |Quoted(s[..i])|
      invariant out[..o] == [QUOTE] + Quoted(s[..i])
      invariant i > 0 ==> |Quoted(s[..i - 1])| + 5 <= out.Length
    {
      assert s[..i + 1] == s[..i] + [s[i]];
      if o + 4 > out.Length {
        QuotedGrows(s, i, |s| - 1);
        return Err(ResultTooLong);
      }
      QuotedSnoc(s[..i], s[i]);
      var e := Escape(s[i]);
      Put(out, o, e);
      o := o + |e|;
      assert out[..o] == [QUOTE] + (Quoted(s[..i]) + e);
    }
    assert s[..|s|] == s;
    if o + 1 > out.Length {
      return Err(ResultTooLong);
    }
    out[o] := QUOTE;
    return Ok(o + 1);
  }

  lemma NothingQuoted()
    ensures Quoted([]) == []
  {
  }

  lemma {:induction false} QuotedGrows(s: bytes, i: nat, j: nat)
    requires i <= j <= |s|
    ensures |Quoted(s[..i])| <= |Quoted(s[..j])|
    decreases j
  {
    if i < j {
      assert s[..j] == s[..j - 1] + [s[j - 1]];
      QuotedSnoc(s[..j - 1], s[j - 1]);
      QuotedGrows(s, i, j - 1);
    }
  }

  // ----- reading -----

  /** The byte at `pos`, zero behind the end. */
  function Peek(src: bytes, pos: nat): byte {
    if pos < |src| then src[pos] else 0
  }

  function Unescape(c: byte): Option<byte> {
    if c == 110 then Some(10)
    else if c == 116 then Some(9)
    else if c == 114 then Some(13)
    else if c == BACKSLASH || c == QUOTE || c == 39 then Some(c)
    else if c == 48 then Some(0)
    else None
  }

  /** The rest of a string literal: its bytes, and the position behind the closing quote. */
  function Literal(src: bytes, pos: nat, quote: byte, n: nat): Result<(bytes, nat), Error>
    decreases |src| - pos
  {
    var c := Peek(src, pos);
    if c == 0 || c == 10 then Err(Unterminated)
    else if c == quote then Ok(([], pos + 1))
    else if c == BACKSLASH then
      match Unescape(Peek(src, pos + 1))
      case None => Err(BadEscape)
      case Some(d) => if n >= BUF then Err(StringTooLong) else Prepend([d], Literal(src, pos + 2, quote, n + 1))
    else if n >= BUF then Err(StringTooLong)
    else Prepend([c], Literal(src, pos + 1, quote, n + 1))
  }

  function Prepend(a: bytes, r: Result<(bytes, nat), Error>): Result<(bytes, nat), Error> {
    match r
    case Err(e) => Err(e)
    case Ok(x) => Ok((a + x.0, x.1))
  }

  class Lexer {
    const src: bytes
    const buf: array<byte>
    var pos: nat
    var buflen: nat

    constructor (src: bytes)
      ensures this.src == src && pos == 0 && buf.Length == BUF && fresh(buf)
    {
      this.src := src;
      buf := new byte[BUF];
      pos, buflen := 0, 0;
    }

    method Bump() returns (b: byte)
      modifies this`pos
      ensures b == Peek(src, old(pos))
      ensures pos == if old(pos) < |src| then old(pos) + 1 else old(pos)
    {
      b := if pos < |src| then src[pos] else 0;
      if pos < |src| {
        pos := pos + 1;
      }
    }

    /** A string literal from its opening quote on. */
    method LexString(quote: byte) returns (r: Result<nat, Error>)
      requires pos < |src| && buf.Length == BUF
      modifies this`pos, this`buflen, buf
      ensures match Literal(src, old(pos) + 1, quote, 0) {
                case Err(e) => r == Err(e)
                case Ok(x) => r == Ok(buflen) && buflen <= BUF && buf[..buflen] == x.0 && pos == x.1
              }
    {
      var opening := Bump();
      ghost var start := pos;
      var n := 0;
      assert buf[..0] == [];
      EmptyPrepend(Literal(src, pos, quote, 0));
      while true
        invariant 0 <= n <= BUF
        invariant Literal(src, start, quote, 0) == Prepend(buf[..n], Literal(src, pos, quote, n))
        decreases |src| - pos
      {
        ghost var at := pos;
        ghost var got := buf[..n];
        var c := Bump();
        if c == 0 || c == 10 {
          return Err(Unterminated);
        }
        if c == quote {
          break;
        }
        if c == BACKSLASH {
          var x := Bump();
          var d := Unescape(x);
          if d.None? {
            return Err(BadEscape);
          }
          c := d.value;
        }
        if n >= BUF {
          return Err(StringTooLong);
        }
        buf[n] := c;
        n := n + 1;
        assert buf[..n] == got + [c];
        PrependTwice(got, [c], Literal(src, pos, quote, n));
      }
      buflen := n;
      assert buf[..n] + [] == buf[..n];
      return Ok(n);
    }
  }

  lemma EmptyPrepend(r: Result<(bytes, nat), Error>)
    ensures Prepend([], r) == r
  {
    if r.Ok? {
      assert [] + r.value.0 == r.value.0;
    }
  }

  lemma PrependTwice(a: bytes, b: bytes, r: Result<(bytes, nat), Error>)
    ensures Prepend(a, Prepend(b, r)) == Prepend(a + b, r)
  {
    if r.Ok? {
      assert a + (b + r.value.0) == a + b + r.value.0;
    }
  }

  // ----- quoting and reading -----

  /** Reading the quotation of `s`, `n` bytes into the buffer: `s` itself if all of it is
      readable and fits; with other bytes in it, an error or too many bytes. */
  lemma {:induction false} LexQuoted(src: bytes, pos: nat, s: bytes, n: nat)
    requires n <= BUF && pos + |Quoted(s)| < |src| && src[pos..pos + |Quoted(s)|] == Quoted(s)
    requires src[pos + |Quoted(s)|] == QUOTE
    ensures var r := Literal(src, pos, QUOTE, n);
            if AllReadable(s) then r == if n + |s| <= BUF then Ok((s, pos + |Quoted(s)| + 1)) else Err(StringTooLong)
            else r.Ok? ==> |r.value.0| > |s|
    decreases |s|
  {
    hide Literal, Escape, AllReadable, Readable, Quoted;
    var text := src[pos..pos + |Quoted(s)|];
    if s == [] {
      NothingQuoted();
      ClosingQuote(src, pos, n);
    } else {
      var e, rest := Escape(s[0]), Quoted(s[1..]);
      QuotedCons(s);
      var next := pos + |e|;
      assert text[..|e|] == e && text[|e|..] == rest;
      forall i | 0 <= i < |e| ensures src[pos + i] == e[i] {
        assert src[pos + i] == text[i];
      }
      assert src[next..next + |rest|] == text[|e|..];
      ReadableParts(s);
      if Readable(s[0]) {
        ReadableByte(src, pos, s[0], n);
        if n < BUF {
          LexQuoted(src, next, s[1..], n + 1);
          assert [s[0]] + s[1..] == s;
        }
      } else {
        OtherByte(src, pos, s[0], n);
        if n + 3 <= BUF {
          LexQuoted(src, next, s[1..], n + 3);
        }
      }
    }
  }

  lemma ClosingQuote(src: bytes, pos: nat, n: nat)
    requires pos < |src| && src[pos] == QUOTE
    ensures Literal(src, pos, QUOTE, n) == Ok(([], pos + 1)) && AllReadable([])
  {
  }

  lemma {:induction false} QuotedCons(s: bytes)
    requires s != []
    ensures Quoted(s) == Escape(s[0]) + Quoted(s[1..])
  {
  }

  lemma {:induction false} ReadableParts(s: bytes)
    requires s != []
    ensures AllReadable(s) <==> Readable(s[0]) && AllReadable(s[1..])
  {
    if Readable(s[0]) && AllReadable(s[1..]) {
      forall i | 0 <= i < |s| ensures Readable(s[i]) {
        if i > 0 {
          assert s[i] == s[1..][i - 1];
        }
      }
    }
  }

  lemma {:induction false} ReadableByte(src: bytes, pos: nat, b: byte, n: nat)
    requires Readable(b) && pos + |Escape(b)| <= |src| && forall i :: 0 <= i < |Escape(b)| ==> src[pos + i] == Escape(b)[i]
    ensures Literal(src, pos, QUOTE, n) ==
            if n >= BUF then Err(StringTooLong) else Prepend([b], Literal(src, pos + |Escape(b)|, QUOTE, n + 1))
  {
    assert src[pos] == Escape(b)[0];
    if |Escape(b)| == 2 {
      assert src[pos + 1] == Escape(b)[1];
    }
  }

  /** A byte that is not readable is written as three digits, of which only a leading zero is
      taken as an escape; the other two come back as digits. */
  lemma {:induction false} OtherByte(src: bytes, pos: nat, b: byte, n: nat)
    requires !Readable(b) && pos + |Escape(b)| <= |src| && forall i :: 0 <= i < |Escape(b)| ==> src[pos + i] == Escape(b)[i]
    ensures var r := Literal(src, pos, QUOTE, n);
            if b >= 100 then r == Err(BadEscape)
            else
              var rest := Literal(src, pos + 4, QUOTE, n + 3);
              |Escape(b)| == 4 &&
              r == if n + 3 <= BUF then Prepend([0], Prepend([48 + b / 10], Prepend([48 + b % 10], rest)))
                   else Err(StringTooLong)
  {
    var e := Escape(b);
    assert src[pos] == e[0] && src[pos + 1] == e[1] && src[pos + 2] == e[2] && src[pos + 3] == e[3];
    if b < 100 {
      assert Literal(src, pos + 2, QUOTE, n + 1) ==
             if n + 1 >= BUF then Err(StringTooLong) else Prepend([e[2]], Literal(src, pos + 3, QUOTE, n + 2));
      assert Literal(src, pos + 3, QUOTE, n + 2) ==
             if n + 2 >= BUF then Err(StringTooLong) else Prepend([e[3]], Literal(src, pos + 4, QUOTE, n + 3));
    }
  }

  /** A quoted string reads back as itself, ending right behind its closing quote, exactly when
      it has at most 256 bytes, all printable, tab, newline or carriage return. */
  lemma QuoteThenLex(pre: bytes, s: bytes, post: bytes)
    ensures var q := [QUOTE] + Quoted(s) + [QUOTE];
            Literal(pre + q + post, |pre| + 1, QUOTE, 0) == Ok((s, |pre| + |q|)) <==> AllReadable(s) && |s| <= BUF
  {
    var q := [QUOTE] + Quoted(s) + [QUOTE];
    var src := pre + q + post;
    var pos := |pre| + 1;
    assert src[pos..pos + |Quoted(s)|] == Quoted(s);
    assert src[pos + |Quoted(s)|] == q[1 + |Quoted(s)|];
    LexQuoted(src, pos, s, 0);
  }

  // ----- the escapes, letter by letter -----

  /** Quoting writes `\\`, `\"`, `\n`, `\r` and `\t`, other printable bytes as they are, and any other
      byte as a backslash and three decimal digits. */
  lemma QuotingMeans(b: byte, rest: bytes)
    ensures Quoted([b] + rest) == Quoted([b]) + Quoted(rest) && Quoted([]) == []
    ensures Quoted([0x5C]) == [0x5C, 0x5C] && Quoted([0x22]) == [0x5C, 0x22]
    ensures Quoted([0x0A]) == [0x5C, 'n' as int] && Quoted([0x0D]) == [0x5C, 'r' as int] && Quoted([0x09]) == [0x5C, 't' as int]
    ensures 0x20 <= b <= 0x7E && b != 0x22 && b != 0x5C ==> Quoted([b]) == [b]
    ensures (b < 0x20 && b !in {0x09, 0x0A, 0x0D}) || b > 0x7E ==>
              Quoted([b]) == [0x5C, 0x30 + b / 100, 0x30 + b / 10 % 10, 0x30 + b % 10]
  {
    hide Quoted, Escape;
    NothingQuoted();
    QuotedOne(b);
    QuotedOne(0x5C);
    QuotedOne(0x22);
    QuotedOne(0x0A);
    QuotedOne(0x0D);
    QuotedOne(0x09);
    QuotedCons([b] + rest);
    assert ([b] + rest)[1..] == rest;
    EscapesAre(b);
  }

  lemma QuotedOne(b: byte)
    ensures Quoted([b]) == Escape(b)
  {
    hide Escape;
    assert [b][1..] == [];
    assert Escape(b) + [] == Escape(b);
  }

  lemma EscapesAre(b: byte)
    ensures Escape(0x5C) == [0x5C, 0x5C] && Escape(0x22) == [0x5C, 0x22]
    ensures Escape(0x0A) == [0x5C, 0x6E] && Escape(0x0D) == [0x5C, 0x72] && Escape(0x09) == [0x5C, 0x74]
    ensures 0x20 <= b <= 0x7E && b != 0x22 && b != 0x5C ==> Escape(b) == [b]
    ensures (b < 0x20 && b !in {0x09, 0x0A, 0x0D}) || b > 0x7E ==>
              Escape(b) == [0x5C, 0x30 + b / 100, 0x30 + b / 10 % 10, 0x30 + b % 10]
  {
    MiddleDigit(b);
  }

  lemma MiddleDigit(b: byte)
    ensures b % 100 / 10 == b / 10 % 10
  {}

  /** What an escape in a literal stands for: a letter behind the backslash, and the byte. */
  predicate EscapeFor(letter: byte, b: byte) {
    (letter == 'n' as int && b == 0x0A) || (letter == 't' as int && b == 0x09) || (letter == 'r' as int && b == 0x0D) ||
    (letter == 0x5C && b == 0x5C) || (letter == 0x22 && b == 0x22) || (letter == 0x27 && b == 0x27) ||
    (letter == '0' as int && b == 0)
  }

  predicate EscapeLetter(c: byte) {
    c in {'n' as int, 't' as int, 'r' as int, '0' as int, 0x5C, 0x22, 0x27}
  }

  /** One step of reading a literal. Zero bytes and line ends end it too early, the quote closes it,
      a backslash and a letter are one byte, any other byte stands for itself; 256 bytes fit. */
  lemma ReadingMeans(src: bytes, pos: nat, quote: byte, n: nat, b: byte)
    requires pos < |src| && (quote == 0x22 || quote == 0x27)
    ensures var r, c := Literal(src, pos, quote, n), src[pos];
            (c == 0 || c == 0x0A ==> r == Err(Unterminated)) && (c == quote ==> r == Ok(([], pos + 1))) &&
            (c !in {0, 0x0A, 0x5C, quote} ==>
               r == if n >= 256 then Err(StringTooLong) else Prepend([c], Literal(src, pos + 1, quote, n + 1))) &&
            (c == 0x5C && pos + 1 < |src| && EscapeFor(src[pos + 1], b) ==>
               r == if n >= 256 then Err(StringTooLong) else Prepend([b], Literal(src, pos + 2, quote, n + 1))) &&
            (c == 0x5C && pos + 1 < |src| && !EscapeLetter(src[pos + 1]) ==> r == Err(BadEscape))
  {
    if src[pos] == 0x5C && pos + 1 < |src| {
      EscapeIs(src[pos + 1], b);
    }
  }

  lemma EscapeIs(letter: byte, b: byte)
    ensures EscapeFor(letter, b) <==> Unescape(letter) == Some(b)
    ensures !EscapeLetter(letter) <==> Unescape(letter) == None
  {}
}
