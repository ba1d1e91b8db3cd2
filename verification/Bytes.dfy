/** Bytes as the programs see them: values 0 to 255, big-endian fields and exclusive or. */
module Bytes {

  type byte = n: nat | n < 256

  /** The C conversion to uint8_t: the low eight bits of n. */
  function ByteOf(n: nat): byte {
    n % 256
  }

  function Pow2(k: nat): (r: nat)
    ensures r > 0
  {
    if k == 0 then 1 else 2 * Pow2(k - 1)
  }

  /** Bit k of n, counted from the lowest. */
  function Bit(n: nat, k: nat): (r: nat)
    ensures r < 2
  {
    if k == 0 then n % 2 else Bit(n / 2, k - 1)
  }

  /** How many bytes of v have bit k set. */
  function Ones(v: seq<byte>, k: nat): nat {
    if v == [] then 0 else Ones(v[..|v| - 1], k) + Bit(v[|v| - 1], k)
  }

  /** Exclusive or of the k low bits of a and b, one bit at a time. */
  function XorBits(a: nat, b: nat, k: nat): (r: nat)
    ensures r < Pow2(k)
  {
    if k == 0 then 0 else (a + b) % 2 + 2 * XorBits(a / 2, b / 2, k - 1)
  }

  function Xor(a: byte, b: byte): byte {
    assert Pow2(8) == 256;
    XorBits(a, b, 8)
  }

  lemma {:induction false} XorBitsZero(b: nat, k: nat)
    requires b < Pow2(k)
    ensures XorBits(0, b, k) == b
  {
    if k == 0 {
    } else {
      XorBitsZero(b / 2, k - 1);
    }
  }

  /** The lowest bit is the parity of a + c; the higher bits repeat the argument. */
  lemma {:induction false} XorBitsCancel(a: nat, b: nat, c: nat, k: nat)
    requires a < Pow2(k) && b < Pow2(k) && a != b
    ensures XorBits(a, c, k) != XorBits(b, c, k)
    decreases k
  {
    if a / 2 != b / 2 {
      XorBitsCancel(a / 2, b / 2, c / 2, k - 1);
    } else {
      LowBitDiffers(a, b, c);
    }
  }

  lemma LowBitDiffers(a: nat, b: nat, c: nat)
    requires a / 2 == b / 2 && a != b
    ensures (a + c) % 2 != (b + c) % 2
  {
    assert a == b + 1 || b == a + 1;
  }

  lemma {:induction false} XorBitsSymmetric(a: nat, b: nat, k: nat)
    ensures XorBits(a, b, k) == XorBits(b, a, k)
  {
    if k == 0 {
    } else {
      XorBitsSymmetric(a / 2, b / 2, k - 1);
    }
  }

  lemma {:induction false} XorBitsUndone(a: nat, b: nat, k: nat)
    requires a < Pow2(k)
    ensures XorBits(XorBits(a, b, k), b, k) == a
    decreases k
  {
    if k == 0 {
    } else {
      XorBitsUndone(a / 2, b / 2, k - 1);
      LowBitUndone(a, b, XorBits(a / 2, b / 2, k - 1));
    }
  }

  lemma LowBitUndone(a: nat, b: nat, high: nat)
    ensures var n := (a + b) % 2 + 2 * high; n / 2 == high && (n + b) % 2 == a % 2
  {
  }

  /** XOR twice with the same byte changes nothing. */
  lemma XorUndone(a: byte, b: byte)
    ensures Xor(Xor(a, b), b) == a && Xor(b, Xor(a, b)) == a
  {
    XorBitsUndone(a, b, 8);
    XorBitsSymmetric(b, Xor(a, b), 8);
  }

  lemma XorZero(b: byte)
    ensures Xor(0, b) == b && Xor(b, 0) == b
  {
    XorBitsZero(b, 8);
    XorBitsSymmetric(0, b, 8);
  }

  /** XOR never hides a difference in one operand. */
  lemma XorCancel(a: byte, b: byte, c: byte)
    requires a != b
    ensures Xor(a, c) != Xor(b, c) && Xor(c, a) != Xor(c, b)
  {
    XorBitsCancel(a, b, c, 8);
    XorBitsSymmetric(a, c, 8);
    XorBitsSymmetric(b, c, 8);
  }

  /** Folds XOR over v, from left to right, starting at acc. */
  function XorAll(acc: byte, v: seq<byte>): byte {
    if v == [] then acc else Xor(XorAll(acc, v[..|v| - 1]), v[|v| - 1])
  }

  lemma {:induction false} XorAllConcat(acc: byte, u: seq<byte>, v: seq<byte>)
    ensures XorAll(acc, u + v) == XorAll(XorAll(acc, u), v)
  {
    if v == [] {
      assert u + v == u;
    } else {
      XorAllConcat(acc, u, v[..|v| - 1]);
      assert (u + v)[..|u + v| - 1] == u + v[..|v| - 1];
    }
  }

  lemma XorAllOne(acc: byte, x: byte)
    ensures XorAll(acc, [x]) == Xor(acc, x)
  {
    assert [x][..0] == [];
  }

  lemma {:induction false} XorAllCancel(a: byte, b: byte, v: seq<byte>)
    requires a != b
    ensures XorAll(a, v) != XorAll(b, v)
  {
    if v == [] {
    } else {
      XorAllCancel(a, b, v[..|v| - 1]);
      XorCancel(XorAll(a, v[..|v| - 1]), XorAll(b, v[..|v| - 1]), v[|v| - 1]);
    }
  }

  /** Every byte is the XOR of v from some start. */
  lemma {:induction false} XorAllReaches(v: seq<byte>, goal: byte) returns (acc: byte)
    ensures XorAll(acc, v) == goal
  {
    if v == [] {
      acc := goal;
    } else {
      acc := XorAllReaches(v[..|v| - 1], Xor(goal, v[|v| - 1]));
      XorUndone(goal, v[|v| - 1]);
    }
  }

  // ---- bit by bit ----

  lemma BitOfHalf(n: nat, k: nat)
    ensures Bit(n, k + 1) == Bit(n / 2, k)
  {
  }

  lemma BitOfQuarter(n: nat, k: nat)
    ensures Bit(n, k + 2) == Bit(n / 4, k)
  {
    BitOfHalf(n, k + 1);
    BitOfHalf(n / 2, k);
  }

  lemma FourDigits(n: nat)
    ensures Bit(n, 0) == n % 2 && Bit(n, 1) == n / 2 % 2 && Bit(n, 2) == n / 4 % 2 && Bit(n, 3) == n / 8 % 2
  {
    TwoDigits(n);
    BitOfQuarter(n, 0);
    BitOfQuarter(n, 1);
    TwoDigits(n / 4);
    QuarterAndHalf(n);
  }

  lemma TwoDigits(n: nat)
    ensures Bit(n, 0) == n % 2 && Bit(n, 1) == n / 2 % 2
  {
    BitOfHalf(n, 0);
  }

  lemma QuarterAndHalf(n: nat)
    ensures n / 4 / 2 == n / 8
  {
  }

  lemma BitOfSixteenth(n: nat, k: nat)
    ensures Bit(n, k + 4) == Bit(n / 16, k)
  {
    BitOfQuarter(n, k + 2);
    BitOfQuarter(n / 4, k);
  }

  lemma SixteenthAndMore(n: nat)
    ensures n / 16 / 2 == n / 32 && n / 16 / 4 == n / 64 && n / 16 / 8 == n / 128
  {
  }

  /** The bits of a byte are its binary digits. */
  lemma BinaryDigits(n: byte)
    ensures Bit(n, 0) == n % 2 && Bit(n, 1) == n / 2 % 2 && Bit(n, 2) == n / 4 % 2 && Bit(n, 3) == n / 8 % 2
    ensures Bit(n, 4) == n / 16 % 2 && Bit(n, 5) == n / 32 % 2 && Bit(n, 6) == n / 64 % 2 && Bit(n, 7) == n / 128 % 2
  {
    FourDigits(n);
    FourDigits(n / 16);
    BitOfSixteenth(n, 0);
    BitOfSixteenth(n, 1);
    BitOfSixteenth(n, 2);
    BitOfSixteenth(n, 3);
    SixteenthAndMore(n);
  }

  lemma {:induction false} XorBitsBit(a: nat, b: nat, n: nat, k: nat)
    requires k < n
    ensures Bit(XorBits(a, b, n), k) == (Bit(a, k) + Bit(b, k)) % 2
    decreases k
  {
    var h := XorBits(a / 2, b / 2, n - 1);
    Halves((a + b) % 2, h);
    if k == 0 {
    } else {
      XorBitsBit(a / 2, b / 2, n - 1, k - 1);
    }
  }

  lemma Halves(low: nat, high: nat)
    requires low < 2
    ensures (low + 2 * high) % 2 == low && (low + 2 * high) / 2 == high
  {
  }

  /** Xor is the exclusive or of C and Python: each bit is the parity of the two bits there. */
  lemma XorIsBitwise(a: byte, b: byte, k: nat)
    requires k < 8
    ensures Bit(Xor(a, b), k) == (Bit(a, k) + Bit(b, k)) % 2
  {
    XorBitsBit(a, b, 8, k);
  }

  lemma SumOfParities(m: nat, n: nat)
    ensures (m % 2 + n % 2) % 2 == (m + n) % 2
  {
  }

  lemma {:induction false} BitsTell(a: nat, b: nat, n: nat)
    requires a < Pow2(n) && b < Pow2(n)
    requires forall k :: 0 <= k < n ==> Bit(a, k) == Bit(b, k)
    ensures a == b
    decreases n
  {
    if n == 0 {
    } else {
      forall k | 0 <= k < n - 1 ensures Bit(a / 2, k) == Bit(b / 2, k) {
        assert Bit(a, k + 1) == Bit(b, k + 1);
      }
      BitsTell(a / 2, b / 2, n - 1);
      assert Bit(a, 0) == Bit(b, 0);
    }
  }

  /** Two bytes with the same bits are the same. */
  lemma ByteBits(a: byte, b: byte)
    requires forall k :: 0 <= k < 8 ==> Bit(a, k) == Bit(b, k)
    ensures a == b
  {
    assert Pow2(8) == 256;
    BitsTell(a, b, 8);
  }

  lemma {:induction false} ZeroBits(k: nat)
    ensures Bit(0, k) == 0
  {
    if k == 0 {
    } else {
      ZeroBits(k - 1);
    }
  }

  lemma {:induction false} XorAllBits(acc: byte, v: seq<byte>, k: nat)
    requires k < 8
    ensures Bit(XorAll(acc, v), k) == (Bit(acc, k) + Ones(v, k)) % 2
  {
    if v == [] {
    } else {
      XorAllBits(acc, v[..|v| - 1], k);
      XorIsBitwise(XorAll(acc, v[..|v| - 1]), v[|v| - 1], k);
      SumOfParities(Bit(acc, k) + Ones(v[..|v| - 1], k), Bit(v[|v| - 1], k));
    }
  }

  lemma {:induction false} OnesConcat(u: seq<byte>, v: seq<byte>, k: nat)
    ensures Ones(u + v, k) == Ones(u, k) + Ones(v, k)
  {
    if v == [] {
      assert u + v == u;
    } else {
      OnesConcat(u, v[..|v| - 1], k);
      assert (u + v)[..|u + v| - 1] == u + v[..|v| - 1];
    }
  }

  lemma OnesOne(x: byte, k: nat)
    ensures Ones([x], k) == Bit(x, k)
  {
    assert [x][..0] == [];
  }

  lemma ConcatAssociative<T>(a: seq<T>, b: seq<T>, c: seq<T>)
    ensures (a + b) + c == a + (b + c)
  {
  }

  lemma CutInTwo<T>(s: seq<T>, n: nat)
    requires n <= |s|
    ensures s[..n] + s[n..] == s
  {
  }

  lemma InitAndLast<T>(s: seq<T>)
    requires s != []
    ensures s[..|s| - 1] + [s[|s| - 1]] == s
  {
  }
}
