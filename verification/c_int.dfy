/**
 * The C integer types and operators that the companding code relies on.
 *
 * Values are mathematical integers; the narrow C types are subset types, and
 * every store into a narrower type goes through an explicit two's-complement
 * conversion (ToShort, ToUChar). The bitwise operators `&`, `|` and `^` are
 * defined bit by bit on non-negative integers, and the lemmas at the end of the
 * module connect the masks the codec uses to ordinary arithmetic.
 */
module CInt {

  /** C `short`: a signed 16-bit integer. */
  type Short = x: int | -0x8000 <= x < 0x8000

  /** C `unsigned char`: an unsigned 8-bit integer. */
  type UChar = x: int | 0 <= x < 0x100

  /** C `int` as used for lengths and the format selector: a signed 32-bit integer. */
  type Int32 = x: int | -0x8000_0000 <= x < 0x8000_0000

  function Pow2(n: nat): (r: nat)
    ensures r >= 1
  {
    if n == 0 then 1 else 2 * Pow2(n - 1)
  }

  /** Conversion of an `int` value to `short`: two's-complement wrap-around, i.e. reduction modulo 2^16 into [-2^15, 2^15). */
  function ToShort(x: int): (r: Short)
    ensures -0x8000 <= x < 0x8000 ==> r == x
    decreases if x < -0x8000 then -x else if x >= 0x8000 then x else 0
  {
    if x < -0x8000 then ToShort(x + 0x1_0000)
    else if x >= 0x8000 then ToShort(x - 0x1_0000)
    else x
  }

  /** Conversion of an `int` value to `unsigned char`: reduction modulo 2^8 into [0, 2^8). */
  function ToUChar(x: int): (r: UChar)
    ensures 0 <= x < 0x100 ==> r == x
    decreases if x < 0 then -x else if x >= 0x100 then x else 0
  {
    if x < 0 then ToUChar(x + 0x100)
    else if x >= 0x100 then ToUChar(x - 0x100)
    else x
  }

  /** C `/` on `int`: the quotient is truncated toward zero. */
  function TruncDiv(a: int, b: int): (q: int)
    requires b > 0
    ensures 0 <= a ==> 0 <= q
    ensures a <= 0 ==> q <= 0
  {
    if a >= 0 then a / b else -((-a) / b)
  }

  /** `a >> n` on a signed value: an arithmetic shift, i.e. halving rounded toward minus infinity, `n` times. */
  function ShiftRight(a: int, n: nat): (r: int)
    ensures 0 <= a ==> 0 <= r <= a
    ensures a < 0 ==> a <= r < 0
    ensures 0 < n && a < 0 ==> a / 2 <= r
    decreases n
  {
    if n == 0 then a else ShiftRight(a / 2, n - 1)
  }

  /** `a << n` for a value whose shifted result is representable: doubling, `n` times. */
  function ShiftLeft(a: int, n: nat): (r: int)
    ensures a <= 0 ==> r <= a
    ensures 0 <= a ==> a <= r
  {
    if n == 0 then a else 2 * ShiftLeft(a, n - 1)
  }

  /** Bitwise `a & b` on non-negative integers. */
  function And(a: nat, b: nat): (r: nat)
    ensures r <= a && r <= b
    decreases a
  {
    if a == 0 || b == 0 then 0
    else 2 * And(a / 2, b / 2) + (if a % 2 == 1 && b % 2 == 1 then 1 else 0)
  }

  /** Bitwise `a | b` on non-negative integers. */
  function Or(a: nat, b: nat): (r: nat)
    ensures a <= r && b <= r && r <= a + b
    decreases a
  {
    if a == 0 then b
    else if b == 0 then a
    else 2 * Or(a / 2, b / 2) + (if a % 2 == 1 || b % 2 == 1 then 1 else 0)
  }

  /** Bitwise `a ^ b` on non-negative integers. */
  function Xor(a: nat, b: nat): (r: nat)
    ensures r <= a + b
    decreases a
  {
    if a == 0 then b
    else if b == 0 then a
    else 2 * Xor(a / 2, b / 2) + (a % 2 + b % 2) % 2
  }

  lemma Pow2Values()
    ensures Pow2(4) == 16 && Pow2(7) == 128 && Pow2(8) == 256
  {
  }

  /** Shifting right twice by `m` and `n` is shifting right by `m + n`. */
  lemma {:induction false} ShiftRightAdd(x: int, m: nat, n: nat)
    ensures ShiftRight(ShiftRight(x, m), n) == ShiftRight(x, m + n)
    decreases m
  {
    if m > 0 {
      ShiftRightAdd(x / 2, m - 1, n);
    }
  }

  /** Right shifts by the constant amounts the codec uses are floor divisions by powers of two. */
  lemma ShiftRightByConstant(x: int)
    ensures ShiftRight(x, 2) == x / 4 && ShiftRight(x, 3) == x / 8
    ensures ShiftRight(x, 4) == x / 16 && ShiftRight(x, 7) == x / 128
  {
    assert ShiftRight(x, 3) == ShiftRight(x / 2, 2);
    ShiftRightTwo(x / 2);
    ShiftRightTwo(x);
    ShiftRightTwo(x / 4);
    ShiftRightAdd(x, 2, 2);
    ShiftRightAdd(x, 4, 3);
    ShiftRightTwo(x / 32);
    assert ShiftRight(x / 16, 3) == ShiftRight(x / 16 / 2, 2);
  }

  lemma ShiftRightTwo(x: int)
    ensures ShiftRight(x, 2) == x / 4
    ensures x / 2 / 4 == x / 8 && x / 4 / 4 == x / 16 && x / 16 / 2 == x / 32 && x / 32 / 4 == x / 128
  {
    assert ShiftRight(x, 2) == ShiftRight(x / 2, 1) == x / 2 / 2;
  }

  /** Left shifts by the constant amounts the codec uses are multiplications by powers of two. */
  lemma ShiftLeftByConstant(x: int)
    ensures ShiftLeft(x, 3) == 8 * x && ShiftLeft(x, 4) == 16 * x && ShiftLeft(x, 7) == 128 * x
  {
    assert ShiftLeft(x, 1) == 2 * x;
    assert ShiftLeft(x, 2) == 4 * x;
    assert ShiftLeft(x, 3) == 8 * x;
    assert ShiftLeft(x, 4) == 16 * x;
    assert ShiftLeft(x, 5) == 32 * x;
    assert ShiftLeft(x, 6) == 64 * x;
  }

  lemma {:induction false} ShiftLeftMonotone(a: int, b: int, m: nat, n: nat)
    requires 0 <= a <= b && m <= n
    ensures ShiftLeft(a, m) <= ShiftLeft(b, n)
    decreases n
  {
    if m < n {
      ShiftLeftMonotone(a, b, m, n - 1);
    } else if n > 0 {
      ShiftLeftMonotone(a, b, m - 1, n - 1);
    }
  }

  /** Shifting 0 either way gives 0; this follows from the sign bounds of both shifts. */
  lemma ShiftOfZero(n: nat)
    ensures ShiftRight(0, n) == 0 && ShiftLeft(0, n) == 0
  {
  }

  /** Masking with `2^k - 1` keeps the low `k` bits: what remains after clearing them by shifting out and back. */
  lemma {:induction false} AndLowMask(a: nat, k: nat)
    ensures And(a, Pow2(k) - 1) == a - ShiftLeft(ShiftRight(a, k), k)
  {
    if k > 0 {
      assert Pow2(k) - 1 == 2 * (Pow2(k - 1) - 1) + 1;
      AndLowMask(a / 2, k - 1);
      if a == 0 {
        ShiftOfZero(k);
      }
    }
  }

  /** Masking with `c << k` is masking the value shifted right by `k` with `c`, shifted back. */
  lemma {:induction false} AndShiftedMask(a: nat, c: nat, k: nat)
    ensures And(a, ShiftLeft(c, k)) == ShiftLeft(And(ShiftRight(a, k), c), k)
  {
    if k > 0 {
      if a == 0 || c == 0 {
        ShiftOfZero(k);
      } else {
        var m := ShiftLeft(c, k - 1);
        assert ShiftLeft(c, k) == 2 * m && m > 0 && (2 * m) / 2 == m && (2 * m) % 2 == 0;
        assert And(a, 2 * m) == 2 * And(a / 2, m);
        var s := ShiftRight(a / 2, k - 1);
        assert ShiftRight(a, k) == s;
        assert ShiftLeft(And(s, c), k) == 2 * ShiftLeft(And(s, c), k - 1);
        AndShiftedMask(a / 2, c, k - 1);
      }
    }
  }

  /** `(c << k) | b` is `(c << k) + b` when `b` fits in the low `k` bits. */
  lemma {:induction false} OrDisjoint(c: nat, b: nat, k: nat)
    requires b < Pow2(k)
    ensures Or(ShiftLeft(c, k), b) == ShiftLeft(c, k) + b
  {
    if k > 0 && ShiftLeft(c, k) != 0 && b != 0 {
      OrDisjoint(c, b / 2, k - 1);
    }
  }

  /** Exclusive or with `2^k - 1` complements a `k`-bit value. */
  lemma {:induction false} XorLowMask(a: nat, k: nat)
    requires a < Pow2(k)
    ensures Xor(a, Pow2(k) - 1) == Pow2(k) - 1 - a
  {
    if k > 0 && a != 0 {
      var m := Pow2(k - 1) - 1;
      assert Pow2(k) - 1 == 2 * m + 1;
      XorLowMask(a / 2, k - 1);
      XorOddStep(a, m);
    }
  }

  lemma XorOddStep(a: nat, m: nat)
    requires a != 0 && Xor(a / 2, m) == m - a / 2
    ensures Xor(a, 2 * m + 1) == 2 * m + 1 - a
  {
    var b := 2 * m + 1;
    var h, r := a / 2, a % 2;
    assert a == 2 * h + r && b / 2 == m && b % 2 == 1;
    if r == 0 {
      assert Xor(a, b) == 2 * Xor(h, m) + 1;
    } else {
      assert Xor(a, b) == 2 * Xor(h, m);
    }
  }

  /** Exclusive or with `2^k` flips bit `k` of a `(k + 1)`-bit value. */
  lemma {:induction false} XorTopBit(a: nat, k: nat)
    requires a < Pow2(k + 1)
    ensures Xor(a, Pow2(k)) == if a >= Pow2(k) then a - Pow2(k) else a + Pow2(k)
  {
    if k == 0 {
      assert a == 0 || a == 1;
    } else if a != 0 {
      var p := Pow2(k - 1);
      assert Pow2(k) == 2 * p && (2 * p) / 2 == p && (2 * p) % 2 == 0;
      assert Xor(a, 2 * p) == 2 * Xor(a / 2, p) + a % 2;
      XorTopBit(a / 2, k - 1);
    }
  }
}
