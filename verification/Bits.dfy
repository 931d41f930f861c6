/**
 Bit operations on unsigned integers, bit by bit; and the arithmetic that stands for them
 where the parser puts UTF-16 together and takes UTF-8 apart.
 */
module Bits {
  import opened Basics
  import opened JsonParse

  /** Exclusive or. */
  function Xor(a: nat, b: nat): nat
    decreases a + b
  {
    if a == 0 && b == 0 then 0 else (a % 2 + b % 2) % 2 + 2 * Xor(a / 2, b / 2)
  }

  lemma {:induction false} XorSymmetric(a: nat, b: nat)
    ensures Xor(a, b) == Xor(b, a)
    decreases a + b
  {
    if a != 0 || b != 0 { XorSymmetric(a / 2, b / 2); }
  }

  lemma {:induction false} XorZero(a: nat, b: nat)
    ensures Xor(a, b) == 0 <==> a == b
    decreases a + b
  {
    if a != 0 || b != 0 { XorZero(a / 2, b / 2); }
  }

  lemma XorUnfolds(a: nat, b: nat)
    ensures Xor(a, b) == (a % 2 + b % 2) % 2 + 2 * Xor(a / 2, b / 2)
  {
  }

  lemma {:induction false} XorParts(k: nat, h: nat, x: nat, g: nat, y: nat)
    requires x < Pow2(k) && y < Pow2(k)
    ensures Xor(Pow2(k) * h + x, Pow2(k) * g + y) == Pow2(k) * Xor(h, g) + Xor(x, y)
  {
    hide Xor;
    if k == 0 {
      XorZero(x, y);
    } else {
      var p := Pow2(k - 1);
      Halves(p, h, x);
      Halves(p, g, y);
      XorUnfolds(Pow2(k) * h + x, Pow2(k) * g + y);
      XorUnfolds(x, y);
      XorParts(k - 1, h, x / 2, g, y / 2);
      Doubled(p, Xor(h, g));
    }
  }

  lemma {:induction false} XorNone(a: nat)
    ensures Xor(a, 0) == a && Xor(0, a) == a
  {
    if a == 0 {
    } else {
      XorNone(a / 2);
    }
  }

  function And(a: nat, b: nat): nat
    decreases a + b
  {
    if a == 0 && b == 0 then 0 else (a % 2) * (b % 2) + 2 * And(a / 2, b / 2)
  }

  function Or(a: nat, b: nat): nat
    decreases a + b
  {
    if a == 0 && b == 0 then 0 else (if a % 2 + b % 2 > 0 then 1 else 0) + 2 * Or(a / 2, b / 2)
  }

  function Pow2(k: nat): (p: nat)
    ensures p > 0
  {
    if k == 0 then 1 else 2 * Pow2(k - 1)
  }

  lemma Halves(p: nat, h: nat, x: nat)
    requires x < 2 * p
    ensures (2 * p * h + x) / 2 == p * h + x / 2 && (2 * p * h + x) % 2 == x % 2 && x / 2 < p
  {
    assert 2 * p * h == 2 * (p * h);
  }

  lemma Doubled(p: nat, v: nat)
    ensures 2 * p * v == 2 * (p * v)
  {
  }

  lemma AndOrUnfold(a: nat, b: nat)
    ensures And(a, b) == (a % 2) * (b % 2) + 2 * And(a / 2, b / 2)
    ensures Or(a, b) == (if a % 2 + b % 2 > 0 then 1 else 0) + 2 * Or(a / 2, b / 2)
  {
  }

  lemma {:induction false} AndOrNone(a: nat)
    ensures And(a, 0) == 0 && Or(a, 0) == a && Or(0, a) == a
    decreases a
  {
    if a == 0 {
    } else {
      AndOrNone(a / 2);
    }
  }

  /** The upper bits and the lower ones can be taken apart. */
  lemma {:induction false} AndOrParts(k: nat, h: nat, x: nat, g: nat, y: nat)
    requires x < Pow2(k) && y < Pow2(k)
    ensures And(Pow2(k) * h + x, Pow2(k) * g + y) == Pow2(k) * And(h, g) + And(x, y)
    ensures Or(Pow2(k) * h + x, Pow2(k) * g + y) == Pow2(k) * Or(h, g) + Or(x, y)
  {
    hide And, Or;
    if k == 0 {
      AndOrNone(0);
    } else {
      var p := Pow2(k - 1);
      Halves(p, h, x);
      Halves(p, g, y);
      AndOrUnfold(Pow2(k) * h + x, Pow2(k) * g + y);
      AndOrUnfold(x, y);
      AndOrParts(k - 1, h, x / 2, g, y / 2);
      Doubled(p, And(h, g));
      Doubled(p, Or(h, g));
    }
  }

  lemma {:induction false} Mask(k: nat, a: nat)
    ensures And(a, Pow2(k) - 1) == a % Pow2(k)
    decreases k
  {
    hide And, Or;
    if k == 0 {
      AndOrNone(a);
    } else {
      var p := Pow2(k - 1);
      Odd(p);
      AndOrUnfold(a, 2 * p - 1);
      Mask(k - 1, a / 2);
      RemainderOfHalf(a, p);
    }
  }

  lemma Odd(p: nat)
    requires p > 0
    ensures (2 * p - 1) / 2 == p - 1 && (2 * p - 1) % 2 == 1
  {
  }

  lemma RemainderOfHalf(a: nat, p: nat)
    requires p > 0
    ensures a % (2 * p) == 2 * (a / 2 % p) + a % 2
  {
    var q, r := a / 2 / p, a / 2 % p;
    assert a == 2 * (p * q + r) + a % 2;
    assert a == (2 * p) * q + (2 * r + a % 2);
    Remainder(2 * p, q, 2 * r + a % 2);
  }

  lemma Remainder(n: nat, q: nat, r: nat)
    requires r < n
    ensures (n * q + r) % n == r
  {
    var v := n * q + r;
    Unique(n, q, r, v / n, v % n);
  }

  lemma Unique(n: nat, q: nat, r: nat, d: nat, m: nat)
    requires r < n && m < n && n * q + r == n * d + m
    ensures q == d && r == m
  {
    if q < d {
      Larger(n, q, d);
    } else if d < q {
      Larger(n, d, q);
    }
  }

  lemma {:induction false} Larger(n: nat, q: nat, d: nat)
    requires q < d
    ensures n * q + n <= n * d
    decreases d
  {
    if d == q + 1 {
    } else {
      Larger(n, q, d - 1);
      assert n * d == n * (d - 1) + n;
    }
  }

  lemma Powers()
    ensures Pow2(3) == 8 && Pow2(4) == 0x10 && Pow2(5) == 0x20 && Pow2(6) == 0x40
    ensures Pow2(8) == 0x100 && Pow2(10) == 0x400
  {
    assert Pow2(3) == 8;
    assert Pow2(6) == 64;
    assert Pow2(8) == 256;
  }

  /** `0x10000 + (((first_code & 0x3FF) << 10) | (second_code & 0x3FF))` */
  lemma PairBits(high: nat, low: nat)
    ensures Combine(high, low) == 0x10000 + Or(And(high, 0x3FF) * 0x400, And(low, 0x3FF))
  {
    hide And, Or, Pow2;
    Powers();
    Mask(10, high);
    Mask(10, low);
    AndOrParts(10, high % 0x400, 0, 0, low % 0x400);
    AndOrNone(high % 0x400);
    AndOrNone(low % 0x400);
  }

  /** A trailing byte is `(codepoint | 0x80) & 0xBF`. */
  lemma TailBits(cp: nat, k: nat, mark: nat)
    requires k > 1
    ensures Utf8Bytes(cp, k, mark) == Utf8Bytes(cp / 64, k - 1, mark) + [Byte(0x80 + cp % 64)]
    ensures And(Or(cp, 0x80), 0xBF) == 0x80 + cp % 64
  {
    hide And, Or, Pow2;
    Powers();
    var h, l := cp / 64, cp % 64;
    AndOrParts(6, h, l, 2, 0);
    AndOrNone(l);
    AndOrParts(6, Or(h, 2), l, 2, 63);
    Mask(6, l);
    SecondBit(h);
  }

  lemma SecondBit(h: nat)
    ensures And(Or(h, 2), 2) == 2
  {
    hide And, Or;
    AndOrUnfold(h, 2);
    AndOrUnfold(h / 2, 1);
    AndOrUnfold(Or(h, 2), 2);
    AndOrUnfold(Or(h, 2) / 2, 1);
    AndOrNone(Or(h, 2) / 2 / 2);
  }

  /** The first byte is `(codepoint | first_byte_mark) & 0xFF`, or `codepoint & 0x7F` of a single one. */
  lemma LeadBits(cp: nat, k: nat)
    requires (k == 1 && cp < 0x80) || (k == 2 && cp < 0x20) || (k == 3 && cp < 0x10) || (k == 4 && cp < 8)
    ensures var byte := if k == 1 then And(cp, 0x7F) else And(Or(cp, FirstByteMark(k)), 0xFF);
            byte < 0x100 && Utf8Bytes(cp, 1, FirstByteMark(k)) == [Byte(byte)]
  {
    hide And, Or, Pow2;
    Powers();
    if k == 1 {
      assert Pow2(7) == 0x80 by { PowerUnfolds(7); }
      Mask(7, cp);
    } else {
      Marked(if k == 2 then 5 else if k == 3 then 4 else 3, if k == 2 then 6 else if k == 3 then 14 else 30, cp);
      Mask(8, cp + FirstByteMark(k));
    }
  }

  lemma Marked(j: nat, g: nat, cp: nat)
    requires cp < Pow2(j)
    ensures Or(cp, Pow2(j) * g) == cp + Pow2(j) * g
  {
    hide And, Or, Pow2;
    AndOrParts(j, 0, cp, g, 0);
    AndOrNone(cp);
    AndOrNone(g);
  }

  lemma PowerUnfolds(k: nat)
    requires k > 0
    ensures Pow2(k) == 2 * Pow2(k - 1)
  {
  }
}
