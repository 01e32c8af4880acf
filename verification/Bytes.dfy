/** Fixed-width integers of the AVR, and the arithmetic facts that the memory,
    queue and timer models share. */
module Bytes {
  type byte = x: int | 0 <= x < 0x100
  type word = x: int | 0 <= x < 0x1_0000

  function Word(hi: byte, lo: byte): word {
    256 * hi + lo
  }

  /** Sixteen-bit addition and subtraction. */
  function Add16(a: word, b: word): word {
    if a + b < 0x1_0000 then a + b else a + b - 0x1_0000
  }

  function Sub16(a: word, b: word): word {
    if a >= b then a - b else a - b + 0x1_0000
  }

  /** Bitwise AND and OR of two naturals, restricted to their n low bits. */
  function AndBits(a: nat, b: nat, n: nat): (r: nat)
    ensures r <= a
    decreases n
  {
    if n == 0 then 0
    else (if a % 2 == 1 && b % 2 == 1 then 1 else 0) + 2 * AndBits(a / 2, b / 2, n - 1)
  }

  function OrBits(a: nat, b: nat, n: nat): (r: nat)
    decreases n
  {
    if n == 0 then 0
    else (if a % 2 == 1 || b % 2 == 1 then 1 else 0) + 2 * OrBits(a / 2, b / 2, n - 1)
  }

  function And(a: byte, b: byte): byte {
    AndBits(a, b, 8)
  }

  /** The largest number of n bits. */
  function Ones(n: nat): nat {
    if n == 0 then 0 else 1 + 2 * Ones(n - 1)
  }

  lemma {:induction false} AndBitsOnes(b: nat, n: nat)
    requires b <= Ones(n)
    ensures AndBits(Ones(n), b, n) == b
  {
    if n > 0 {
      assert Ones(n) / 2 == Ones(n - 1) && Ones(n) % 2 == 1;
      AndBitsOnes(b / 2, n - 1);
    }
  }

  /** Programming an erased cell stores the programmed byte: 0xFF is the unit of AND. */
  lemma AndErased(b: byte)
    ensures And(0xFF, b) == b
  {
    assert Ones(4) == 15;
    assert Ones(8) == 255;
    AndBitsOnes(b, 8);
  }

  /** Bit i of a number. */
  predicate Bit(x: nat, i: nat) {
    if i == 0 then x % 2 == 1 else Bit(x / 2, i - 1)
  }

  /** AND and OR work bit by bit. */
  lemma {:induction false} BitOfBits(a: nat, b: nat, n: nat, i: nat)
    requires i < n
    ensures Bit(AndBits(a, b, n), i) <==> Bit(a, i) && Bit(b, i)
    ensures Bit(OrBits(a, b, n), i) <==> Bit(a, i) || Bit(b, i)
    decreases n
  {
    var x, y := AndBits(a / 2, b / 2, n - 1), OrBits(a / 2, b / 2, n - 1);
    assert AndBits(a, b, n) / 2 == x && OrBits(a, b, n) / 2 == y;
    if i > 0 {
      BitOfBits(a / 2, b / 2, n - 1, i - 1);
    }
  }

  lemma BitAnd(a: byte, b: byte, i: nat)
    requires i < 8
    ensures Bit(And(a, b), i) <==> Bit(a, i) && Bit(b, i)
  {
    BitOfBits(a, b, 8, i);
  }

  /** The complement of a number of n bits. */
  lemma {:induction false} BitOfComplement(x: nat, n: nat, i: nat)
    requires x <= Ones(n) && i < n
    ensures Bit(Ones(n) - x, i) <==> !Bit(x, i)
    decreases n
  {
    assert (Ones(n) - x) / 2 == Ones(n - 1) - x / 2;
    if i > 0 {
      BitOfComplement(x / 2, n - 1, i - 1);
    }
  }

  lemma BitComplement(b: byte, i: nat)
    requires i < 8
    ensures Bit(0xFF - b, i) <==> !Bit(b, i)
  {
    assert Ones(4) == 15;
    assert Ones(8) == 255;
    BitOfComplement(b, 8, i);
  }

  /** 0xFF is the unit of AND on either side. */
  lemma {:induction false} AndBitsFull(b: nat, n: nat)
    requires b <= Ones(n)
    ensures AndBits(b, Ones(n), n) == b
  {
    if n > 0 {
      assert Ones(n) / 2 == Ones(n - 1) && Ones(n) % 2 == 1;
      AndBitsFull(b / 2, n - 1);
    }
  }

  lemma AndFull(b: byte)
    ensures And(b, 0xFF) == b
  {
    assert Ones(4) == 15;
    assert Ones(8) == 255;
    AndBitsFull(b, 8);
  }

  /** Bits that do not overlap: OR of a multiple of 2^k with a number of k bits is a sum. */
  lemma {:induction false} OrIsSum(a: nat, b: nat, k: nat, n: nat)
    requires k <= n
    requires a <= Ones(n) && b <= Ones(k)
    requires Mod(a, Ones(k) + 1) == 0
    ensures OrBits(a, b, n) == a + b
    decreases n
  {
    if n == 0 {
    } else if k == 0 {
      ModOne(a / 2);
      OrIsSum(a / 2, 0, 0, n - 1);
    } else {
      ModHalf(a, Ones(k - 1) + 1);
      OrIsSum(a / 2, b / 2, k - 1, n - 1);
    }
  }

  /** The remainder of x by p, by repeated subtraction: pages, rings and banks
      have sizes that are parameters, and this keeps reasoning about them linear. */
  function Mod(x: nat, p: nat): (r: nat)
    requires p > 0
    ensures r < p && r <= x
    decreases x
  {
    if x < p then x else Mod(x - p, p)
  }

  lemma ModSmall(x: nat, p: nat)
    requires x < p
    ensures Mod(x, p) == x
  {}

  lemma {:induction false} ModIsRemainder(x: nat, p: nat)
    requires p > 0
    ensures Mod(x, p) == x % p
  {
    if x >= p {
      ModIsRemainder(x - p, p);
      var q := (x - p) / p;
      assert x - p == p * q + (x - p) % p;
      assert x == p * (q + 1) + (x - p) % p;
      RemainderUnique(x, p, q + 1, (x - p) % p);
    } else {
      RemainderUnique(x, p, 0, x);
    }
  }

  lemma RemainderUnique(x: nat, p: nat, q: nat, r: nat)
    requires r < p && x == p * q + r
    ensures x % p == r
  {
    var e := x / p - q;
    assert x == p * (x / p) + x % p;
    assert p * e == p * (x / p) - p * q;
    assert e >= 1 ==> p * e >= p;
    assert e <= -1 ==> p * e + p <= 0;
  }

  lemma {:induction false} ModOne(x: nat)
    ensures Mod(x, 1) == 0
  {
    if x > 0 {
      ModOne(x - 1);
    }
  }

  lemma {:induction false} ModTwo(x: nat)
    ensures Mod(x, 2) == x % 2
  {
    if x >= 2 {
      ModTwo(x - 2);
    }
  }

  /** Half of a multiple of 2m. */
  lemma {:induction false} ModHalf(a: nat, m: nat)
    requires m > 0 && Mod(a, 2 * m) == 0
    ensures a % 2 == 0 && Mod(a / 2, m) == 0
  {
    if a >= 2 * m {
      ModHalf(a - 2 * m, m);
      assert a / 2 == (a - 2 * m) / 2 + m;
    }
  }

  /** Moving k places from a multiple of p. */
  lemma {:induction false} ModOffset(a: nat, k: nat, p: nat)
    requires p > 0 && Mod(a, p) == 0
    ensures Mod(a + k, p) == Mod(k, p)
    decreases a
  {
    if a >= p {
      ModOffset(a - p, k, p);
    }
  }

  /** The page that holds x. */
  lemma {:induction false} ModBase(x: nat, p: nat)
    requires p > 0
    ensures Mod(x - Mod(x, p), p) == 0
  {
    if x >= p {
      ModBase(x - p, p);
    }
  }

  /** The page base of an address at or after an aligned one is at or after it too. */
  lemma PageAbove(a: nat, i: nat, p: nat)
    requires p > 0 && Mod(a, p) == 0 && a <= i
    ensures i - Mod(i, p) >= a
    ensures i < a + p ==> Mod(i, p) == i - a
  {
    ModOffset(a, i - a, p);
  }

  /** A multiple of p beyond x is beyond all of the page that holds x. */
  lemma {:induction false} ModRoom(x: nat, n: nat, p: nat)
    requires p > 0 && Mod(n, p) == 0 && x < n
    ensures x - Mod(x, p) + p <= n
  {
    if x >= p {
      ModRoom(x - p, n - p, p);
    }
  }

  /** The successor of a residue, computed as the ring pointers do. */
  lemma {:induction false} ModSucc(x: nat, p: nat)
    requires p > 0
    ensures Mod(x + 1, p) == if Mod(x, p) + 1 == p then 0 else Mod(x, p) + 1
  {
    if x >= p {
      ModSucc(x - p, p);
    }
  }

  /** Numbers closer than p to each other have distinct residues. */
  lemma {:induction false} ModDistinct(x: nat, y: nat, p: nat)
    requires x < y < x + p
    ensures Mod(x, p) != Mod(y, p)
    decreases x
  {
    if x >= p {
      ModDistinct(x - p, y - p, p);
    }
  }

  /** A prefix or suffix of a sequence, taken in two stages. */
  lemma SplitAt(s: seq<byte>, k: nat, m: nat)
    requires k <= m <= |s|
    ensures s[..k] + s[k..][..m - k] == s[..m]
    ensures s[k..][m - k..] == s[m..]
  {}

  lemma SplitAppend(a: seq<byte>, s: seq<byte>, k: nat)
    requires k <= |s|
    ensures a + s == (a + s[..k]) + s[k..]
  {}
}
