/**
 The Internet checksum (src/net.cc, section 1 of RFC 1071): the one's complement of the one's
 complement sum of the 16-bit words, an odd last byte counting as the low half of a word.

 The code adds in 32 bits and folds the carries at the end. It computes the checksum exactly when
 the plain sum fits into 32 bits, which every buffer of up to 131074 bytes guarantees.
 */
module Checksum {
  import opened Machine

  const TWO31: nat := 0x8000_0000

  /** The words of the buffer, low byte first, added without bound. */
  function Sum(d: seq<byte>): nat {
    if |d| == 0 then 0
    else if |d| == 1 then d[0] as nat
    else d[0] as nat + 256 * d[1] as nat + Sum(d[2..])
  }

  /** The value with its carries folded back in until 16 bits are left. */
  function Fold(n: nat): nat {
    if n < 65536 then n else Fold(n % 65536 + n / 65536)
  }

  /** The checksum as the RFC defines it. */
  function Spec(d: seq<byte>): nat
    ensures Spec(d) < 65536
  {
    FoldLaws(Sum(d));
    65535 - Fold(Sum(d))
  }

  lemma Residue(k: nat, a: nat)
    ensures (65535 * k + a) % 65535 == a % 65535
  {
  }

  lemma OneFold(n: nat)
    requires n >= 65536
    ensures 0 < n % 65536 + n / 65536 < n && n == 65535 * (n / 65536) + (n % 65536 + n / 65536)
  {
  }

  /** Folding keeps the residue modulo 65535, and only zero folds to zero. */
  lemma {:induction false} FoldLaws(n: nat)
    ensures Fold(n) < 65536 && Fold(n) % 65535 == n % 65535 && (Fold(n) == 0 <==> n == 0)
  {
    if n >= 65536 {
      OneFold(n);
      Residue(n / 65536, n % 65536 + n / 65536);
      FoldLaws(n % 65536 + n / 65536);
    }
  }

  /** Adding in 32 bits step by step is adding and wrapping once. */
  lemma Wrap(a: nat, w: nat)
    ensures (a % TWO32 + w) % TWO32 == (a + w) % TWO32
  {
  }

  /** The words and the odd byte, added in 32 bits. */
  method Accumulate(data: seq<byte>) returns (acc: nat)
    requires |data| < TWO31
    ensures acc == Sum(data) % TWO32
  {
    var p, i := 0, |data|;
    acc := 0;
    ghost var added: nat := 0;
    assert data[0..] == data;
    while i > 1
      invariant 0 <= p && 0 <= i && p + i == |data|
      invariant added + Sum(data[p..]) == Sum(data) && acc == added % TWO32
    {
      assert data[p..][2..] == data[p + 2..];
      var word := data[p] as nat + 256 * data[p + 1] as nat;
      Wrap(added, word);
      acc, added := (acc + word) % TWO32, added + word;
      i, p := i - 2, p + 2;
    }
    if i == 1 {
      Wrap(added, data[p] as nat);
      acc, added := (acc + data[p] as nat) % TWO32, added + data[p] as nat;
    }
  }

  /** check_sum. */
  method CheckSum(data: seq<byte>) returns (c: nat)
    requires |data| < TWO31
    ensures c == 65535 - Fold(Sum(data) % TWO32)
  {
    var acc := Accumulate(data);
    while acc / 65536 != 0
      invariant 0 <= acc && Fold(acc) == Fold(Sum(data) % TWO32)
      decreases acc
    {
      acc := acc % 65536 + acc / 65536;
    }
    c := 65535 - acc;
  }

  // ---------------------------------------------------------------- when 32 bits are enough

  lemma {:induction false} SumBound(d: seq<byte>)
    ensures Sum(d) <= 65535 * (|d| / 2) + 255 * (|d| % 2)
  {
    if |d| > 1 { SumBound(d[2..]); }
  }

  /** What is lost at 2^32 is never a multiple of 65535: the code is right exactly without a wrap. */
  lemma CheckSumExact(d: seq<byte>)
    requires |d| < TWO31
    ensures 65535 - Fold(Sum(d) % TWO32) == Spec(d) <==> Sum(d) < TWO32
    ensures |d| <= 131074 ==> Sum(d) < TWO32
  {
    SumBound(d);
    var q, r := Sum(d) / TWO32, Sum(d) % TWO32;
    assert Sum(d) == 65535 * (65537 * q) + (q + r);
    Residue(65537 * q, q + r);
    FoldLaws(Sum(d));
    FoldLaws(r);
    if q > 0 { Distinct(r, q); }
  }

  lemma Distinct(r: nat, q: nat)
    requires 0 < q < 65535
    ensures r % 65535 != (q + r) % 65535
  {
  }

  /** The bound is tight: one byte more and the buffer of all ones is summed wrong. */
  lemma TooLong()
    ensures var d := seq(131075, _ => 255); 65535 - Fold(Sum(d) % TWO32) != Spec(d)
  {
    var d := seq(131075, _ => 255 as byte);
    Ones(131075);
    CheckSumExact(d);
  }

  lemma {:induction false} Ones(n: nat)
    ensures Sum(seq(n, _ => 255)) == 65535 * (n / 2) + 255 * (n % 2)
  {
    if n > 1 {
      assert seq(n, _ => 255 as byte)[2..] == seq(n - 2, _ => 255 as byte);
      Ones(n - 2);
    }
  }

  // ---------------------------------------------------------------- filling the field

  /** Changing one byte changes the sum by its weight. */
  lemma {:induction false} SumByte(d: seq<byte>, j: nat, x: byte)
    requires j < |d|
    ensures Sum(d[j := x]) == Sum(d) + (if j % 2 == 0 then 1 else 256) * (x as int - d[j] as int)
  {
    if j > 1 {
      assert d[j := x][2..] == d[2..][j - 2 := x];
      SumByte(d[2..], j - 2, x);
    } else if |d| > 1 {
      assert d[j := x][2..] == d[2..];
    }
  }

  lemma {:induction false} SumConcat(a: seq<byte>, b: seq<byte>)
    requires |a| % 2 == 0
    ensures Sum(a + b) == Sum(a) + Sum(b)
  {
    if |a| == 0 {
      assert a + b == b;
    } else {
      assert (a + b)[2..] == a[2..] + b;
      SumConcat(a[2..], b);
    }
  }

  /** The checksum stored in the field at the even offset k. */
  function Filled(d: seq<byte>, k: nat, c: nat): seq<byte>
    requires k + 1 < |d| && c < 65536
  {
    d[k := (c % 256) as byte][k + 1 := (c / 256) as byte]
  }

  /** A buffer checks to zero exactly when its sum is a positive multiple of 65535. */
  lemma ZeroExact(d: seq<byte>)
    ensures Spec(d) == 0 <==> Sum(d) % 65535 == 0 && Sum(d) > 0
  {
    FoldLaws(Sum(d));
  }

  /** A zeroed, aligned field that receives the checksum makes the whole buffer check to zero. */
  lemma FilledChecks(d: seq<byte>, k: nat)
    requires k % 2 == 0 && k + 1 < |d| && d[k] == 0 && d[k + 1] == 0
    ensures Spec(Filled(d, k, Spec(d))) == 0
  {
    var c := Spec(d);
    SumByte(d, k, (c % 256) as byte);
    SumByte(d[k := (c % 256) as byte], k + 1, (c / 256) as byte);
    var d' := Filled(d, k, c);
    assert Sum(d') == Sum(d) + c;
    FoldLaws(Sum(d));
    Complement(Sum(d), Fold(Sum(d)));
    ZeroExact(d');
  }

  lemma Complement(n: nat, f: nat)
    requires f <= 65535 && f % 65535 == n % 65535 && (f == 0 <==> n == 0)
    ensures (n + 65535 - f) % 65535 == 0 && n + 65535 - f > 0
  {
  }

  /** One changed byte is always noticed. */
  lemma OneByteDetected(d: seq<byte>, j: nat, x: byte)
    requires j < |d| && x != d[j] && Spec(d) == 0
    ensures Spec(d[j := x]) != 0
  {
    SumByte(d, j, x);
    ZeroExact(d);
    ZeroExact(d[j := x]);
    Near(Sum(d), (if j % 2 == 0 then 1 else 256) * (x as int - d[j] as int));
  }

  lemma Near(n: nat, w: int)
    requires n % 65535 == 0 && -65535 < w < 65535 && w != 0
    ensures (n + w) % 65535 != 0
  {
  }
}
