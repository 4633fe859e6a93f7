/** The bits of bytes, the lowest one first. */
module Bits {
  import opened Memory

  /** Bit `k` of a number. */
  function Bit(b: nat, k: nat): bool {
    if k == 0 then b % 2 == 1 else Bit(b / 2, k - 1)
  }

  function Power(n: nat): nat {
    if n == 0 then 1 else 2 * Power(n - 1)
  }

  /** The number with the bits from `k` to `n`, the first of them counting one. */
  function Value(f: nat -> bool, k: nat, n: nat): (v: nat)
    requires k <= n
    ensures v < Power(n - k)
    decreases n - k
  {
    if k == n then 0 else (if f(k) then 1 else 0) + 2 * Value(f, k + 1, n)
  }

  /** The byte with given bits. */
  function Byte(f: nat -> bool): byte {
    Eight();
    Value(f, 0, 8)
  }

  lemma {:induction false} Eight()
    ensures Power(8) == 256
  {
    assert Power(4) == 16;
  }

  lemma {:induction false} BitOfValue(f: nat -> bool, k: nat, n: nat, i: nat)
    requires k <= i < n
    ensures Bit(Value(f, k, n), i - k) == f(i)
    decreases n - k
  {
    if i > k {
      BitOfValue(f, k + 1, n, i);
      assert Value(f, k, n) / 2 == Value(f, k + 1, n);
    }
  }

  lemma {:induction false} BitOfByte(f: nat -> bool, k: nat)
    requires k < 8
    ensures Bit(Byte(f), k) == f(k)
  {
    hide Value, Bit;
    BitOfValue(f, 0, 8, k);
  }

  /** A number is known by its bits. */
  lemma {:induction false} SameNumber(a: nat, b: nat, n: nat)
    requires a < Power(n) && b < Power(n) && forall k {:trigger Bit(a, k)} :: 0 <= k < n ==> Bit(a, k) == Bit(b, k)
    ensures a == b
  {
    if n > 0 {
      assert Bit(a, 0) == Bit(b, 0);
      forall k {:trigger Bit(a / 2, k)} | 0 <= k < n - 1 ensures Bit(a / 2, k) == Bit(b / 2, k) {
        assert Bit(a, k + 1) == Bit(b, k + 1);
      }
      SameNumber(a / 2, b / 2, n - 1);
    }
  }

  lemma {:induction false} SameByte(a: byte, b: byte)
    requires forall k {:trigger Bit(a, k)} :: 0 <= k < 8 ==> Bit(a, k) == Bit(b, k)
    ensures a == b
  {
    hide Bit;
    Eight();
    SameNumber(a, b, 8);
  }

  /** A number without its first `k` bits. */
  function Shifted(b: nat, k: nat): nat {
    if k == 0 then b else Shifted(b, k - 1) / 2
  }

  lemma {:induction false} BitOfShifted(b: nat, k: nat, i: nat)
    ensures Bit(b, k + i) == Bit(Shifted(b, k), i)
    decreases k
  {
    if k > 0 {
      BitOfShifted(b, k - 1, i + 1);
    }
  }

  /** Bit `i` of a sequence of bytes. */
  function BitAt(data: seq<byte>, i: nat): bool
    requires i < 8 * |data|
  {
    Bit(data[i / 8], i % 8)
  }

  function BitsOf(data: seq<byte>): (r: seq<bool>)
    ensures |r| == 8 * |data|
  {
    seq(8 * |data|, i requires 0 <= i < 8 * |data| => BitAt(data, i))
  }
}
