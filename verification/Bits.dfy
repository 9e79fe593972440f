/**
  Bit strings, most significant bit first, and the 32-bit registers of the C code.
  A register is the string of its 32 bits, and the C operators are defined bit by bit,
  so nothing about `<<`, `>>`, `&` and `|` is taken on trust.
 */
module Bits {

  newtype byte = x: int | 0 <= x < 256

  /** What C reads through a pointer: bytes that no buffer holds are arbitrary. */
  type Memory = nat -> byte

  /** Byte strings one behind the other. */
  function Flatten(chunks: seq<seq<byte>>): seq<byte> {
    if chunks == [] then [] else chunks[0] + Flatten(chunks[1..])
  }

  type Word = w: seq<bool> | |w| == 32 witness seq(32, _ => false)

  function Pow2(n: nat): (p: nat)
    ensures p >= 1
  {
    if n == 0 then 1 else 2 * Pow2(n - 1)
  }

  /** The number a bit string denotes. */
  function ToNat(b: seq<bool>): (v: nat)
    ensures v < Pow2(|b|)
  {
    if b == [] then 0 else 2 * ToNat(b[..|b| - 1]) + (if b[|b| - 1] then 1 else 0)
  }

  /** The `n` low-order bits of `x`. */
  function FromNat(x: nat, n: nat): (b: seq<bool>)
    ensures |b| == n
  {
    if n == 0 then [] else FromNat(x / 2, n - 1) + [x % 2 == 1]
  }

  function Zeros(n: nat): (b: seq<bool>)
    ensures |b| == n && forall i :: 0 <= i < n ==> !b[i]
  {
    seq(n, _ => false)
  }

  function Ones(n: nat): (b: seq<bool>)
    ensures |b| == n && forall i :: 0 <= i < n ==> b[i]
  {
    seq(n, _ => true)
  }

  // C's operators on 32-bit registers

  function And(a: Word, b: Word): Word {
    seq(32, i requires 0 <= i < 32 => a[i] && b[i])
  }

  function Or(a: Word, b: Word): Word {
    seq(32, i requires 0 <= i < 32 => a[i] || b[i])
  }

  function ShiftLeft(a: Word, k: nat): Word
    requires k < 32
  {
    a[k..] + Zeros(k)
  }

  /** `>>` on a signed register copies the sign bit. */
  function ShiftRightSigned(a: Word, k: nat): Word
    requires k < 32
  {
    seq(k, _ => a[0]) + a[..32 - k]
  }

  function IntToWord(x: nat): Word {
    FromNat(x, 32)
  }

  // Numbers and bit strings

  lemma {:induction false} ToNatOfFromNat(x: nat, n: nat)
    ensures ToNat(FromNat(x, n)) == x % Pow2(n)
  {
    if n == 0 {
      assert x % 1 == 0;
    } else {
      ToNatOfFromNat(x / 2, n - 1);
      var b := FromNat(x, n);
      assert b[..n - 1] == FromNat(x / 2, n - 1);
      ModHalves(x, Pow2(n - 1));
    }
  }

  lemma ModHalves(x: nat, m: nat)
    requires m >= 1
    ensures x % (2 * m) == 2 * ((x / 2) % m) + x % 2
  {
    var q, r := (x / 2) / m, (x / 2) % m;
    assert x / 2 == m * q + r;
    assert x == (2 * m) * q + (2 * r + x % 2);
    ModUnique(x, 2 * m, q, 2 * r + x % 2);
  }

  lemma ModUnique(x: int, m: nat, q: int, r: nat)
    requires m >= 1 && r < m && x == m * q + r
    ensures x / m == q && x % m == r
  {
    var q', r' := x / m, x % m;
    var d := q - q';
    assert m * d == r' - r by {
      assert x == m * q' + r';
      assert m * d == m * q - m * q';
    }
    NoMultipleBetween(m, d);
  }

  lemma NoMultipleBetween(m: int, d: int)
    requires m >= 1
    ensures d >= 1 ==> m * d >= m
    ensures d <= -1 ==> m * d <= -m
  {
    if d >= 1 {
      assert m * d == m + m * (d - 1);
    } else if d <= -1 {
      assert m * d == m * (d + 1) - m;
    }
  }

  lemma ToNatOfSmall(x: nat, n: nat)
    requires x < Pow2(n)
    ensures ToNat(FromNat(x, n)) == x
  {
    ToNatOfFromNat(x, n);
    ModUnique(x, Pow2(n), 0, x);
  }

  lemma {:induction false} FromNatOfToNat(b: seq<bool>)
    ensures FromNat(ToNat(b), |b|) == b
  {
    if b != [] {
      FromNatOfToNat(b[..|b| - 1]);
      assert ToNat(b) / 2 == ToNat(b[..|b| - 1]);
    }
  }

  lemma ToNatInjective(a: seq<bool>, b: seq<bool>)
    requires |a| == |b| && ToNat(a) == ToNat(b)
    ensures a == b
  {
    FromNatOfToNat(a);
    FromNatOfToNat(b);
  }

  lemma {:induction false} ToNatConcat(a: seq<bool>, b: seq<bool>)
    ensures ToNat(a + b) == ToNat(a) * Pow2(|b|) + ToNat(b)
  {
    if b == [] {
      assert a + b == a;
    } else {
      var c := b[..|b| - 1];
      assert (a + b)[..|a + b| - 1] == a + c;
      ToNatConcat(a, c);
      assert ToNat(a) * Pow2(|b|) == 2 * (ToNat(a) * Pow2(|c|)) by {
        DoubleProduct(ToNat(a), Pow2(|c|));
      }
    }
  }

  lemma MulAssociative(a: int, b: int, c: int)
    ensures (a * b) * c == a * (b * c)
  {
  }

  lemma MulDistributes(a: int, b: int, c: int)
    ensures (a + b) * c == a * c + b * c
    ensures (a - b) * c == a * c - b * c
  {
  }

  lemma MulCommutes(a: int, b: int)
    ensures a * b == b * a
  {
  }

  lemma DoubleProduct(x: nat, p: nat)
    ensures x * (2 * p) == 2 * (x * p)
  {
  }

  lemma {:induction false} ToNatZeros(n: nat)
    ensures ToNat(Zeros(n)) == 0
  {
    if n > 0 {
      assert Zeros(n)[..n - 1] == Zeros(n - 1);
      ToNatZeros(n - 1);
    }
  }

  lemma {:induction false} FromNatOnes(n: nat)
    ensures FromNat(Pow2(n) - 1, n) == Ones(n)
  {
    if n > 0 {
      assert (Pow2(n) - 1) / 2 == Pow2(n - 1) - 1;
      FromNatOnes(n - 1);
    }
  }

  lemma {:induction false} Pow2Add(a: nat, b: nat)
    ensures Pow2(a + b) == Pow2(a) * Pow2(b)
  {
    if b > 0 {
      Pow2Add(a, b - 1);
      DoubleProduct(Pow2(a), Pow2(b - 1));
    }
  }

  /** Keeping fewer low-order bits drops bits on the left. */
  lemma {:induction false} FromNatSuffix(x: nat, n: nat, m: nat)
    requires m <= n
    ensures FromNat(x, n)[n - m..] == FromNat(x, m)
  {
    if m > 0 {
      FromNatSuffix(x / 2, n - 1, m - 1);
      var b, c := FromNat(x, n), FromNat(x / 2, n - 1);
      assert b == c + [x % 2 == 1];
      assert b[n - m..] == c[n - m..] + [x % 2 == 1];
    }
  }
}
