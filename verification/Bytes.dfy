// Bytes as integers, with the big-endian coding that `encoding/binary` gives to
// the store's length prefix and to the two fields of an index entry.
module Bytes {

  type byte = x: int | 0 <= x < 256
  type bytes = seq<byte>

  const TWO_32: nat := 0x1_0000_0000
  const TWO_63: nat := 0x8000_0000_0000_0000
  const TWO_64: nat := 0x1_0000_0000_0000_0000

  /** An index entry: a uint32 offset, then a uint64 position. */
  const OFFSET_WIDTH: nat := 4
  const ENTRY_WIDTH: nat := 12

  type uint32 = x: int | 0 <= x < 0x1_0000_0000
  type uint64 = x: int | 0 <= x < 0x1_0000_0000_0000_0000

  function Pow256(k: nat): (p: nat)
    ensures p > 0
  {
    if k == 0 then 1 else 256 * Pow256(k - 1)
  }

  function ToBE(n: nat, width: nat): (b: bytes)
    ensures |b| == width
  {
    if width == 0 then [] else ToBE(n / 256, width - 1) + [n % 256]
  }

  /** The most significant byte comes first. */
  lemma {:induction false} ToBEDigit(n: nat, width: nat, i: nat)
    requires i < width
    ensures ToBE(n, width)[i] == n / Pow256(width - 1 - i) % 256
  {
    if i < width - 1 {
      ToBEDigit(n / 256, width - 1, i);
      DivideTwice(n, 256, Pow256(width - 2 - i));
    }
  }

  lemma {:induction false} DivideTwice(n: nat, a: nat, b: nat)
    requires a > 0 && b > 0
    ensures a * b > 0 && n / a / b == n / (a * b)
  {
    Divided(n, a, b, n / a, n % a, n / a / b, n / a % b);
  }

  lemma {:induction false} Divided(n: nat, a: nat, b: nat, q: nat, r: nat, p: nat, s: nat)
    requires n == a * q + r && r < a && q == b * p + s && s < b
    ensures a * b > 0 && n / (a * b) == p
  {
    assert a * q == (a * b) * p + a * s by {
      Product(a, b, p, s);
    }
    LessThanProduct(a, b, s, r);
    Quotient(n, a * b, p, a * s + r);
  }

  lemma {:induction false} Product(a: nat, b: nat, p: nat, s: nat)
    ensures a * (b * p + s) == (a * b) * p + a * s
  {
  }

  lemma {:induction false} LessThanProduct(a: nat, b: nat, s: nat, r: nat)
    requires s < b && r < a
    ensures a * s + r < a * b && a * b > 0
  {
    assert a * (s + 1) <= a * b;
  }

  lemma {:induction false} Multiples(n: nat, d: int)
    ensures d >= 1 ==> n * d >= n
    ensures d <= -1 ==> n * d + n <= 0
  {
  }

  /** The only quotient that leaves a remainder below `n`. */
  lemma {:induction false} Quotient(x: nat, n: nat, q: int, r: nat)
    requires r < n && x == n * q + r
    ensures x / n == q
  {
    var d := x / n - q;
    assert n * d == n * (x / n) - n * q;
    Multiples(n, d);
  }

  function FromBE(b: bytes): nat {
    if b == [] then 0 else 256 * FromBE(b[..|b| - 1]) + b[|b| - 1]
  }

  lemma {:induction false} FromBEBound(b: bytes)
    ensures FromBE(b) < Pow256(|b|)
  {
    if b != [] {
      FromBEBound(b[..|b| - 1]);
    }
  }

  lemma {:induction false} FromToBE(n: nat, width: nat)
    requires n < Pow256(width)
    ensures FromBE(ToBE(n, width)) == n
  {
    if width > 0 {
      FromToBE(n / 256, width - 1);
      assert ToBE(n, width)[..width - 1] == ToBE(n / 256, width - 1);
    }
  }

  lemma {:induction false} Pow256Widths()
    ensures Pow256(4) == TWO_32 && Pow256(8) == TWO_64
  {
    assert Pow256(2) == 0x1_0000;
    assert Pow256(4) == 0x1_0000_0000;
    assert Pow256(6) == 0x1_0000_0000_0000;
  }

  lemma {:induction false} FromToBE64(n: uint64)
    ensures FromBE(ToBE(n, 8)) == n
  {
    Pow256Widths();
    FromToBE(n, 8);
  }

  lemma {:induction false} FromToBE32(n: uint32)
    ensures FromBE(ToBE(n, 4)) == n
  {
    Pow256Widths();
    FromToBE(n, 4);
  }
}
