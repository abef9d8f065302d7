/** Big-endian 16-bit fields. */
module Wire {
  import opened Core

  function Be16(n: nat): (b: bytes)
    requires n < 65536
    ensures |b| == 2
  {
    [n / 256, n % 256]
  }

  function FromBe16(a: byte, b: byte): (n: nat)
    ensures n < 65536
  {
    a * 256 + b
  }

  lemma Be16RoundTrip(n: nat)
    requires n < 65536
    ensures FromBe16(Be16(n)[0], Be16(n)[1]) == n
  {
  }
}
