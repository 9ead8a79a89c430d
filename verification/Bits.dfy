// Machine words as bounded naturals, and the C operators & | ~ << on them.

module Bits {

  type byte = x: int | 0 <= x < 0x100
  type word = x: int | 0 <= x < 0x1_0000_0000

  function Pow2(k: nat): (p: nat)
    ensures p > 0
  {
    if k == 0 then 1 else 2 * Pow2(k - 1)
  }

  /** Bit k of x. */
  predicate Bit(x: nat, k: nat) {
    if k == 0 then x % 2 == 1 else Bit(x / 2, k - 1)
  }

  /** The C operator & on unsigned words. */
  function And(x: nat, y: nat): (r: nat)
    ensures r <= x && r <= y
  {
    if x == 0 || y == 0 then 0 else 2 * And(x / 2, y / 2) + (if x % 2 == 1 && y % 2 == 1 then 1 else 0)
  }

  /** The C operator | on unsigned words. */
  function Or(x: nat, y: nat): (r: nat)
    ensures x <= r <= x + y && y <= r
    decreases x + y
  {
    if x == 0 then y
    else if y == 0 then x
    else 2 * Or(x / 2, y / 2) + (if x % 2 == 1 || y % 2 == 1 then 1 else 0)
  }

  /** The C operator ~ on a 32-bit word. */
  function Not(x: word): (r: word) {
    0xFFFF_FFFF - x
  }

  lemma {:induction false} BitZero(k: nat)
    ensures !Bit(0, k)
  {
    if k > 0 {
      BitZero(k - 1);
    }
  }

  lemma {:induction false} BitAnd(x: nat, y: nat, k: nat)
    ensures Bit(And(x, y), k) <==> Bit(x, k) && Bit(y, k)
  {
    if x == 0 || y == 0 {
      BitZero(k);
    } else {
      assert And(x, y) / 2 == And(x / 2, y / 2);
      if k > 0 {
        BitAnd(x / 2, y / 2, k - 1);
      }
    }
  }

  lemma {:induction false} BitOr(x: nat, y: nat, k: nat)
    ensures Bit(Or(x, y), k) <==> Bit(x, k) || Bit(y, k)
  {
    if x == 0 || y == 0 {
      BitZero(k);
    } else {
      assert Or(x, y) / 2 == Or(x / 2, y / 2);
      if k > 0 {
        BitOr(x / 2, y / 2, k - 1);
      }
    }
  }

  /** Complement within n bits. */
  lemma {:induction false} BitComplement(x: nat, n: nat, k: nat)
    requires x < Pow2(n) && k < n
    ensures Bit(Pow2(n) - 1 - x, k) <==> !Bit(x, k)
  {
    assert Pow2(n) == 2 * Pow2(n - 1);
    if k > 0 {
      assert (Pow2(n) - 1 - x) / 2 == Pow2(n - 1) - 1 - x / 2;
      BitComplement(x / 2, n - 1, k - 1);
    }
  }

  lemma Pow2At32()
    ensures Pow2(32) == 0x1_0000_0000
  {
    assert Pow2(8) == 0x100;
    assert Pow2(16) == 0x1_0000;
    assert Pow2(24) == 0x100_0000;
  }

  lemma BitNot(x: word, k: nat)
    requires k < 32
    ensures Bit(Not(x), k) <==> !Bit(x, k)
  {
    Pow2At32();
    BitComplement(x, 32, k);
  }

  lemma {:induction false} BitPow2(j: nat, k: nat)
    ensures Bit(Pow2(j), k) <==> j == k
  {
    if j == 0 {
      if k > 0 {
        BitZero(k - 1);
      }
    } else if k > 0 {
      BitPow2(j - 1, k - 1);
    }
  }

  lemma {:induction false} Pow2Monotone(j: nat, n: nat)
    requires j < n
    ensures Pow2(j) < Pow2(n)
  {
    if j + 1 < n {
      Pow2Monotone(j, n - 1);
    }
  }

  /** Two n-bit words with the same bits are the same word. */
  lemma {:induction false} SameBits(x: nat, y: nat, n: nat)
    requires x < Pow2(n) && y < Pow2(n)
    requires forall k: nat | k < n :: Bit(x, k) <==> Bit(y, k)
    ensures x == y
  {
    if n > 0 {
      forall k: nat | k < n - 1
        ensures Bit(x / 2, k) <==> Bit(y / 2, k)
      {
        assert Bit(x, k + 1) <==> Bit(y, k + 1);
      }
      SameBits(x / 2, y / 2, n - 1);
      assert Bit(x, 0) <==> Bit(y, 0);
    }
  }

  lemma {:induction false} OrBound(x: nat, y: nat, n: nat)
    requires x < Pow2(n) && y < Pow2(n)
    ensures Or(x, y) < Pow2(n)
  {
    if n > 0 && x > 0 && y > 0 {
      OrBound(x / 2, y / 2, n - 1);
    }
  }

  function OrWord(x: word, y: word): (r: word) {
    Pow2At32();
    OrBound(x, y, 32);
    Or(x, y)
  }

  function AndWord(x: word, y: word): (r: word) {
    And(x, y)
  }

  lemma AndStep(x: nat, y: nat)
    ensures And(x, y) == 2 * And(x / 2, y / 2) + (if x % 2 == 1 && y % 2 == 1 then 1 else 0)
  {
  }

  /** And with an all-ones mask is a remainder; p is 2^n. */
  lemma {:induction false} AndOnes(x: nat, n: nat, p: nat)
    requires p == Pow2(n)
    ensures And(x, p - 1) == x % p
  {
    if n > 0 {
      hide And;
      var h := Pow2(n - 1);
      AndOnes(x / 2, n - 1, h);
      AndStep(x, p - 1);
      ModDouble(x, h);
      assert (p - 1) / 2 == h - 1 && (p - 1) % 2 == 1;
    }
  }

  lemma ModDouble(x: nat, p: nat)
    requires p > 0
    ensures x % (2 * p) == 2 * (x / 2 % p) + x % 2
  {
    var h := x / 2;
    var q := h / p;
    assert h == q * p + h % p;
    assert x == 2 * h + x % 2;
    assert x == q * (2 * p) + (2 * (h % p) + x % 2);
    DivModUnique(x, 2 * p, q, 2 * (h % p) + x % 2);
  }

  lemma DivModUnique(x: nat, d: nat, q: nat, r: nat)
    requires d > 0 && x == q * d + r && r < d
    ensures x / d == q && x % d == r
  {
    var q' := x / d;
    var r' := x % d;
    assert x == q' * d + r';
    assert (q - q') * d == r' - r;
    if q > q' {
      MulAtLeast(q - q', d);
    } else if q < q' {
      MulAtLeast(q' - q, d);
    }
  }

  lemma MulAtLeast(a: nat, d: nat)
    requires a >= 1
    ensures a * d >= d
  {
  }

  /** A mask and its complement split a word; p is 2^n. */
  lemma {:induction false} AndPartition(x: nat, y: nat, n: nat, p: nat)
    requires p == Pow2(n) && x < p && y < p
    ensures And(x, y) + And(x, p - 1 - y) == x
  {
    hide And;
    if n > 0 {
      var h := Pow2(n - 1);
      AndStep(x, y);
      AndStep(x, p - 1 - y);
      HalfComplement(y, h);
      AndPartition(x / 2, y / 2, n - 1, h);
    } else {
      AndZero();
    }
  }

  lemma HalfComplement(y: nat, h: nat)
    requires y < 2 * h
    ensures (2 * h - 1 - y) / 2 == h - 1 - y / 2 && (2 * h - 1 - y) % 2 == 1 - y % 2
  {
  }

  /** & works on the low n bits and on the rest apart; p is 2^n. */
  lemma {:induction false} AndSplit(lo: nat, hi: nat, lo': nat, hi': nat, n: nat, p: nat)
    requires p == Pow2(n) && lo < p && lo' < p
    ensures And(lo + hi * p, lo' + hi' * p) == And(lo, lo') + And(hi, hi') * p
  {
    hide And;
    if n > 0 {
      var h := Pow2(n - 1);
      AndSplit(lo / 2, hi, lo' / 2, hi', n - 1, h);
      HalfOf(lo, hi, h, p);
      HalfOf(lo', hi', h, p);
      AndStep(lo + hi * p, lo' + hi' * p);
      AndStep(lo, lo');
      TwiceTimes(And(hi, hi'), h, p);
    } else {
      TimesOne(hi);
      TimesOne(hi');
      TimesOne(And(hi, hi'));
      AndZero();
    }
  }

  /** | works on the low n bits and on the rest apart; p is 2^n. */
  lemma {:induction false} OrSplit(lo: nat, hi: nat, lo': nat, hi': nat, n: nat, p: nat)
    requires p == Pow2(n) && lo < p && lo' < p
    ensures Or(lo + hi * p, lo' + hi' * p) == Or(lo, lo') + Or(hi, hi') * p
  {
    hide Or;
    if n > 0 {
      var h := Pow2(n - 1);
      OrSplit(lo / 2, hi, lo' / 2, hi', n - 1, h);
      HalfOf(lo, hi, h, p);
      HalfOf(lo', hi', h, p);
      OrStep(lo + hi * p, lo' + hi' * p);
      OrStep(lo, lo');
      TwiceTimes(Or(hi, hi'), h, p);
    } else {
      TimesOne(hi);
      TimesOne(hi');
      TimesOne(Or(hi, hi'));
      OrZero(0);
    }
  }

  lemma HalfOf(lo: nat, hi: nat, h: nat, p: nat)
    requires p == 2 * h
    ensures (lo + hi * p) / 2 == lo / 2 + hi * h && (lo + hi * p) % 2 == lo % 2
  {
    TwiceTimes(hi, h, p);
    TwicePlus(lo, hi * h);
  }

  lemma TwicePlus(x: nat, q: nat)
    ensures (x + 2 * q) / 2 == x / 2 + q && (x + 2 * q) % 2 == x % 2
  {
  }

  lemma TimesOne(a: nat)
    ensures a * 1 == a
  {
  }

  lemma AndZero()
    ensures And(0, 0) == 0
  {
  }

  /** Or of a low part and an aligned high part is their sum; p is 2^n. */
  lemma OrDisjoint(lo: nat, hi: nat, n: nat, p: nat)
    requires p == Pow2(n) && lo < p
    ensures Or(lo, hi * p) == lo + hi * p
  {
    OrZero(lo);
    OrZero(hi);
    hide *;
    OrSplit(lo, 0, 0, hi, n, p);
    TimesZero(p);
  }

  lemma TimesZero(p: nat)
    ensures 0 * p == 0
  {
  }

  lemma TwiceTimes(a: nat, h: nat, p: nat)
    requires p == 2 * h
    ensures a * p == 2 * (a * h)
  {
  }

  lemma OrZero(x: nat)
    ensures Or(x, 0) == x && Or(0, x) == x
  {
  }

  lemma OrStep(x: nat, y: nat)
    ensures Or(x, y) == 2 * Or(x / 2, y / 2) + (if x % 2 == 1 || y % 2 == 1 then 1 else 0)
  {
  }

  /** No bit at or above n is set in an n-bit word. */
  lemma {:induction false} BitAbove(x: nat, n: nat, k: nat)
    requires x < Pow2(n) && n <= k
    ensures !Bit(x, k)
  {
    if n > 0 {
      BitAbove(x / 2, n - 1, k - 1);
    } else {
      BitZero(k);
    }
  }

  /** x without its remainder by p. */
  function Cleared(x: nat, p: nat): (r: nat)
    requires p > 0
  {
    RemainderBelow(x, p);
    x - x % p
  }

  lemma RemainderBelow(x: nat, p: nat)
    requires p > 0
    ensures x % p <= x
  {
  }

  lemma ClearedHalf(x: nat, h: nat)
    requires h > 0
    ensures Cleared(x, 2 * h) == 2 * Cleared(x / 2, h)
  {
    ModDouble(x, h);
  }

  /** Taking the remainder away clears the low n bits; p is 2^n. */
  lemma {:induction false} BitCleared(x: nat, n: nat, p: nat, k: nat)
    requires p == Pow2(n)
    ensures Bit(Cleared(x, p), k) <==> n <= k && Bit(x, k)
  {
    if n > 0 {
      var h := Pow2(n - 1);
      assert p == 2 * h;
      hide Cleared, Pow2;
      ClearedHalf(x, h);
      BitOfTwice(Cleared(x / 2, h), k);
      if k > 0 {
        BitCleared(x / 2, n - 1, h, k - 1);
      }
    } else {
      NothingCleared(x);
    }
  }

  lemma BitOfTwice(y: nat, k: nat)
    ensures Bit(2 * y, k) <==> k > 0 && Bit(y, k - 1)
  {
    assert 2 * y / 2 == y && 2 * y % 2 == 0;
  }

  lemma NothingCleared(x: nat)
    ensures Cleared(x, 1) == x
  {
  }

  /** A set of naturals below n has at most n elements. */
  lemma {:induction false} BoundedSet(a: set<nat>, n: nat)
    requires forall i | i in a :: i < n
    ensures |a| <= n
  {
    if n > 0 {
      var b := a - {n - 1};
      BoundedSet(b, n - 1);
      assert a <= b + {n - 1};
      if n - 1 in a {
        assert a == b + {n - 1};
      } else {
        assert a == b;
      }
    } else {
      assert a == {};
    }
  }
}
