/** Types shared by every module of the model. */
module Core {

  type byte = b: int | 0 <= b < 256

  type bytes = seq<byte>

  /** An ASCII digit. */
  predicate IsDigit(c: byte) { 0x30 <= c <= 0x39 }

  /** The bytes of a name in the source's text. */
  function Ascii(s: string): bytes
    requires forall i :: 0 <= i < |s| ==> s[i] as int < 256
  {
    seq(|s|, i requires 0 <= i < |s| => s[i] as int)
  }

  /** Capacity of the string arena and of the buffers strings are built in. */
  const STR_CAP: nat := 32768

  datatype Option<+T> = None | Some(value: T)

  datatype Result<+T, +E> = Ok(value: T) | Err(error: E)

  /** The outcome of a call that the source may abort with a panic (an index or slice out of
      range, or an overflow in a build that checks for it). */
  datatype Checked<+T> = Returned(value: T) | Panicked

  lemma SliceOfPrefix(s: bytes, n: nat, i: nat, j: nat)
    requires i <= j <= n <= |s|
    ensures s[..n][i..j] == s[i..j]
  {}

  lemma SliceOfSlice(s: bytes, a: nat, b: nat, i: nat, j: nat)
    requires a <= b <= |s| && i <= j <= b - a
    ensures s[a..b][i..j] == s[a + i..a + j]
  {
    var x, y := s[a..b][i..j], s[a + i..a + j];
    assert forall k :: 0 <= k < j - i ==> x[k] == s[a + i + k] && y[k] == s[a + i + k];
    assert x == y;
  }

  /** Copies bytes into a buffer. */
  method Put(buf: array<byte>, at: nat, bs: bytes)
    requires at + |bs| <= buf.Length
    modifies buf
    ensures buf[..at + |bs|] == old(buf[..at]) + bs
    ensures forall i :: at + |bs| <= i < buf.Length ==> buf[i] == old(buf[i])
  {
    forall i | 0 <= i < |bs| {
      buf[at + i] := bs[i];
    }
  }
}
