/** The Internet checksum (section 1 of RFC 1071). */
module Checksum {
  import opened Core
  import opened Wire

  const U32: nat := 0x1_0000_0000

  /** The sum of the 16-bit big-endian words; an odd last byte counts as a high byte. */
  function Sum16(s: bytes): nat {
    if s == [] then 0
    else if |s| == 1 then s[0] * 256
    else FromBe16(s[0], s[1]) + Sum16(s[2..])
  }

  /** The carries folded back in until 16 bits are left. */
  function Fold(n: nat): (r: nat)
    ensures r < 65536
  {
    if n < 65536 then n else Fold(n % 65536 + n / 65536)
  }

  function ChecksumOf(s: bytes): (c: nat)
    ensures c < 65536
  {
    65535 - Fold(Sum16(s))
  }

  /** Folding is addition modulo 65535, with zero only for zero. */
  lemma {:induction false} FoldIs(n: nat)
    ensures Fold(n) % 65535 == n % 65535 && (Fold(n) == 0 <==> n == 0)
  {
    if n >= 65536 {
      FoldIs(n % 65536 + n / 65536);
      ModStep(n);
    }
  }

  lemma ModStep(n: nat)
    ensures n % 65535 == (n % 65536 + n / 65536) % 65535
  {
    var q, r := n / 65536, n % 65536;
    assert n == (r + q) + 65535 * q;
    ModPlus(r + q, q);
  }

  lemma ModPlus(a: nat, k: nat)
    ensures (a + 65535 * k) % 65535 == a % 65535
  {
  }

  /** The checksum is the number from 0 to 65535 that makes the sum a multiple of 65535; of the
      two for a multiple already, it is 65535 for an empty sum only. */
  lemma ChecksumIs(s: bytes)
    ensures (ChecksumOf(s) + Sum16(s)) % 65535 == 0
    ensures ChecksumOf(s) == 65535 <==> Sum16(s) == 0
  {
    var n := Sum16(s);
    FoldIs(n);
    ComplementMod(Fold(n), n);
  }

  lemma ComplementMod(f: nat, n: nat)
    requires f < 65536 && f % 65535 == n % 65535
    ensures (65535 - f + n) % 65535 == 0
  {
  }

  /** The checksum of a buffer, summed in 32 bits. When the sum overflows, a build with overflow
      checks aborts and one without them goes on with the remainder. */
  method IpChecksum(buf: bytes, checks: bool) returns (r: Checked<nat>)
    ensures r.Panicked? <==> checks && Sum16(buf) >= U32
    ensures r.Returned? ==> r.value == 65535 - Fold(Sum16(buf) % U32)
    ensures r.Returned? ==> (r.value == ChecksumOf(buf) <==> Summable(Sum16(buf)))
  {
    hide Fold;
    WrappedSum(Sum16(buf));
    var sum: nat, i: nat := 0, 0;
    ghost var lost: nat := 0;
    while i + 1 < |buf|
      invariant i <= |buf| && sum + lost * U32 + Sum16(buf[i..]) == Sum16(buf) && sum < U32
      invariant checks ==> lost == 0
    {
      assert buf[i..][2..] == buf[i + 2..];
      sum := sum + FromBe16(buf[i], buf[i + 1]);
      if sum >= U32 {
        if checks {
          return Panicked;
        }
        sum, lost := sum - U32, lost + 1;
      }
      i := i + 2;
    }
    if i < |buf| {
      sum := sum + FromBe16(buf[i], 0);
      if sum >= U32 {
        if checks {
          return Panicked;
        }
        sum, lost := sum - U32, lost + 1;
      }
    }
    Remainder(sum, lost);
    var c := Complement(sum);
    return Returned(c);
  }

  lemma Remainder(sum: nat, lost: nat)
    requires sum < U32
    ensures (sum + lost * U32) % U32 == sum
  {}

  /** Sums for which dropping whole multiples of the 32-bit range does not change the checksum. */
  predicate Summable(n: nat) {
    n < U32 || (n / U32 % 65535 == 0 && n % U32 != 0)
  }

  lemma WrappedSum(n: nat)
    ensures Fold(n % U32) == Fold(n) <==> Summable(n)
  {
    hide Fold;
    var q, r := n / U32, n % U32;
    FoldIs(n);
    FoldIs(r);
    assert n == (q + r) + 65535 * (65537 * q);
    ModPlus(q + r, 65537 * q);
    SameResidue(r, q);
  }

  lemma SameResidue(r: nat, q: nat)
    ensures (q + r) % 65535 == r % 65535 <==> q % 65535 == 0
  {}

  /** The fold loop. */
  method Complement(total: nat) returns (c: nat)
    ensures c == 65535 - Fold(total)
  {
    var sum := total;
    while sum / 65536 != 0
      invariant Fold(sum) == Fold(total)
      decreases sum
    {
      sum := sum % 65536 + sum / 65536;
    }
    return 65535 - sum;
  }

  // ----- when the sum fits 32 bits -----

  lemma {:induction false} SumBound(s: bytes)
    ensures Sum16(s) <= 65535 * ((|s| + 1) / 2)
  {
    if |s| >= 2 {
      SumBound(s[2..]);
    }
  }

  /** Up to 131074 bytes never overflow the sum. */
  lemma SmallFits(s: bytes)
    requires |s| <= 131074
    ensures Sum16(s) < U32
  {
    SumBound(s);
  }

  function Ones(n: nat): bytes {
    seq(n, _ => 255)
  }

  lemma {:induction false} SumOnes(n: nat)
    ensures Sum16(Ones(n)) == 65535 * (n / 2) + 65280 * (n % 2)
  {
    if n >= 2 {
      assert Ones(n)[2..] == Ones(n - 2);
      SumOnes(n - 2);
    }
  }

  /** Any longer buffer may: the bound is exact. */
  lemma LargeOverflows(n: nat)
    requires n > 131074
    ensures Sum16(Ones(n)) >= U32
  {
    SumOnes(n);
  }

  // ----- checking a header -----

  lemma {:induction false} SumConcat(a: bytes, b: bytes)
    requires |a| % 2 == 0
    ensures Sum16(a + b) == Sum16(a) + Sum16(b)
  {
    if a == [] {
      assert a + b == b;
    } else {
      assert (a + b)[2..] == a[2..] + b;
      SumConcat(a[2..], b);
    }
  }

  lemma SumField(pre: bytes, f: nat, post: bytes)
    requires |pre| % 2 == 0 && f < 65536
    ensures Sum16(pre + Be16(f) + post) == Sum16(pre) + f + Sum16(post)
  {
    SumConcat(pre + Be16(f), post);
    SumConcat(pre, Be16(f));
    assert Be16(f)[2..] == [];
  }

  /** A header whose checksum field held `f` when the checksum was computed verifies exactly
      when `f` was zero in one's complement. */
  lemma {:induction false} VerifiesIff(pre: bytes, f: nat, post: bytes)
    requires |pre| % 2 == 0 && f < 65536 && Sum16(pre) + Sum16(post) > 0
    ensures var c := ChecksumOf(pre + Be16(f) + post);
            ChecksumOf(pre + Be16(c) + post) == 0 <==> f == 0 || f == 65535
  {
    hide Sum16, Fold, ChecksumOf;
    var h := pre + Be16(f) + post;
    var c := ChecksumOf(h);
    SumField(pre, f, post);
    SumField(pre, c, post);
    ChecksumIs(h);
    ZeroChecksum(pre + Be16(c) + post);
    FieldMod(Sum16(pre), Sum16(post), c, f);
  }

  /** A sum that is not empty has checksum zero exactly when it is a multiple of 65535. */
  lemma ZeroChecksum(s: bytes)
    requires Sum16(s) > 0
    ensures ChecksumOf(s) == 0 <==> Sum16(s) % 65535 == 0
  {
    hide Sum16, Fold;
    FoldIs(Sum16(s));
  }

  lemma FieldMod(a: nat, b: nat, c: nat, f: nat)
    requires (c + (a + f + b)) % 65535 == 0 && f < 65536
    ensures (a + c + b) % 65535 == 0 <==> f == 0 || f == 65535
  {
    var n := a + c + b;
    assert (n + f) % 65535 == 0;
  }
}
