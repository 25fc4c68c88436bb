/** 64-bit machine words and powers of two. */
module Words {

  const TWO_56: nat := 0x100_0000_0000_0000
  const TWO_63: nat := 0x8000_0000_0000_0000

  /** An unsigned 64-bit word. */
  type Word = x: nat | x < 0x1_0000_0000_0000_0000

  /** A signed char. */
  type SChar = x: int | -128 <= x <= 127

  /** The word that unsigned 64-bit arithmetic keeps of an exact result. */
  function Wrap(x: int): Word { x % 0x1_0000_0000_0000_0000 }

  /** x - y on words, with wrap-around. */
  function Sub(x: Word, y: Word): Word { (x as int - y as int) % 0x1_0000_0000_0000_0000 }

  lemma LowWord(x: int, k: int, r: int)
    requires x == 0x1_0000_0000_0000_0000 * k + r && 0 <= r < 0x1_0000_0000_0000_0000
    ensures x % 0x1_0000_0000_0000_0000 == r
  {
  }

  function Pow2(n: nat): (r: nat)
    ensures r > 0
  {
    if n == 0 then 1 else 2 * Pow2(n - 1)
  }

  lemma MulBounds(e: int, d: nat)
    ensures e >= 0 ==> e * d >= 0
    ensures e >= 1 ==> e * d >= d
    ensures e <= -1 ==> e * d + d <= 0
  {
  }

  lemma ProductLe(a: nat, b: nat, m: nat, n: nat)
    requires a <= m && b <= n
    ensures 0 <= a * b <= m * n
  {
    MulBounds(m - a, n);
    MulBounds(n - b, a);
    assert m * n - a * b == (m - a) * n + (n - b) * a;
  }

  lemma DivTwice(x: nat, p: nat)
    requires p > 0
    ensures x / (2 * p) == x / p / 2
  {
    var q, r := x / p, x % p;
    assert x == (q / 2) * (2 * p) + (q % 2) * p + r;
    assert 0 <= (q % 2) * p + r < 2 * p;
    DivUnique(x, 2 * p, q / 2, (q % 2) * p + r);
  }

  lemma DivUnique(x: nat, d: nat, q: nat, r: nat)
    requires d > 0 && x == q * d + r && r < d
    ensures x / d == q
  {
    var e := q - x / d;
    assert e * d == x % d - r;
    MulBounds(e, d);
  }

  lemma Pow2Step8(n: nat)
    ensures Pow2(n + 8) == 0x100 * Pow2(n)
  {
    assert Pow2(n + 8) == 2 * Pow2(n + 7);
    assert Pow2(n + 7) == 2 * Pow2(n + 6);
    assert Pow2(n + 6) == 2 * Pow2(n + 5);
    assert Pow2(n + 5) == 2 * Pow2(n + 4);
    assert Pow2(n + 4) == 2 * Pow2(n + 3);
    assert Pow2(n + 3) == 2 * Pow2(n + 2);
    assert Pow2(n + 2) == 2 * Pow2(n + 1);
  }

  lemma Pow2Of24()
    ensures Pow2(24) == 0x100_0000
  {
    assert Pow2(0) == 1;
    Pow2Step8(0);
    Pow2Step8(8);
    Pow2Step8(16);
  }

  lemma Pow2Of32()
    ensures Pow2(32) == 0x1_0000_0000
  {
    Pow2Of24();
    Pow2Step8(24);
  }

  lemma Pow2Of56()
    ensures Pow2(56) == 0x100_0000_0000_0000
  {
    Pow2Of32();
    Pow2Step8(32);
    Pow2Step8(40);
    Pow2Step8(48);
  }

  lemma Pow2Of64()
    ensures Pow2(64) == 0x1_0000_0000_0000_0000
  {
    Pow2Of56();
    Pow2Step8(56);
  }

  lemma Pow2Small()
    ensures Pow2(0) == 1 && Pow2(1) == 2 && Pow2(2) == 4 && Pow2(3) == 8 && Pow2(4) == 16
    ensures Pow2(5) == 32 && Pow2(6) == 64 && Pow2(7) == 128 && Pow2(8) == 0x100
  {
    assert Pow2(3) == 2 * Pow2(2);
    assert Pow2(6) == 2 * Pow2(5);
  }

  /** The powers of whole bytes. */
  lemma Pow2Bytes()
    ensures Pow2(8) == 0x100 && Pow2(16) == 0x1_0000 && Pow2(24) == 0x100_0000 && Pow2(32) == 0x1_0000_0000
    ensures Pow2(40) == 0x100_0000_0000 && Pow2(48) == 0x1_0000_0000_0000 && Pow2(56) == 0x100_0000_0000_0000
  {
    hide Pow2;
    Pow2Small();
    Pow2Step8(8);
    Pow2Step8(16);
    Pow2Step8(24);
    Pow2Step8(32);
    Pow2Step8(40);
    Pow2Step8(48);
  }

  lemma {:induction false} Pow2Sum(a: nat, b: nat)
    ensures Pow2(a + b) == Pow2(a) * Pow2(b)
  {
    if b == 0 {
      assert Pow2(0) == 1;
    } else {
      Pow2Sum(a, b - 1);
      assert Pow2(a + b) == 2 * Pow2(a + (b - 1));
    }
  }

  lemma {:induction false} Pow2Monotone(m: nat, n: nat)
    requires m <= n
    ensures Pow2(m) <= Pow2(n)
  {
    if m < n { Pow2Monotone(m, n - 1); }
  }
}
