/** Arithmetic on the four octets of an IPv4 address: powers of two, Python's
    bitwise `&` on non-negative ints, and the octets of a CIDR prefix mask
    (section 3.1 of RFC 4632). */
module Octets {

  type Octet = x: int | 0 <= x < 256

  function Pow2(n: nat): (r: nat)
    ensures r >= 1
  {
    if n == 0 then 1 else 2 * Pow2(n - 1)
  }

  lemma {:induction false} Pow2Monotone(i: nat, j: nat)
    requires i <= j
    ensures Pow2(i) <= Pow2(j)
    decreases j
  {
    if i < j {
      Pow2Monotone(i, j - 1);
    }
  }

  /** Python's `a & b` on non-negative ints, bit by bit from the low end. */
  function BitAnd(a: nat, b: nat): nat
  {
    if a == 0 || b == 0 then 0
    else 2 * BitAnd(a / 2, b / 2) + (if a % 2 == 1 && b % 2 == 1 then 1 else 0)
  }

  lemma MulAtLeast(k: int, d: int)
    requires k >= 1 && d >= 1
    ensures k * d >= d
  {
  }

  lemma ModAtMost(x: nat, y: nat)
    requires y >= 1
    ensures x % y <= x
  {
    var q := x / y;
    assert x == q * y + x % y;
    assert q * y >= 0;
  }

  /** Euclidean division is unique. */
  lemma DivModUnique(n: int, d: int, q: int, s: int)
    requires d >= 1 && n == q * d + s && 0 <= s < d
    ensures n % d == s && n / d == q
  {
    var q', s' := n / d, n % d;
    assert n == q' * d + s';
    if q' > q {
      assert (q' - q) * d == s - s';
      MulAtLeast(q' - q, d);
      assert false;
    } else if q' < q {
      assert (q - q') * d == s' - s;
      MulAtLeast(q - q', d);
      assert false;
    }
  }

  lemma ModDouble(x: nat, y: nat, r: nat)
    requires y >= 1 && r <= 1
    ensures (2 * x + r) % (2 * y) == 2 * (x % y) + r
  {
    var q, s := x / y, x % y;
    assert x == q * y + s;
    assert 2 * x + r == q * (2 * y) + (2 * s + r);
    DivModUnique(2 * x + r, 2 * y, q, 2 * s + r);
  }

  lemma BitAndStep(a: nat, b: nat)
    requires a >= 1 && b >= 1
    ensures BitAnd(a, b) == 2 * BitAnd(a / 2, b / 2) + (if a % 2 == 1 && b % 2 == 1 then 1 else 0)
  {
  }

  lemma ClearLowStep(a: nat, p: nat, rest: nat)
    requires p >= 1 && rest == a / 2 - (a / 2) % p
    ensures 2 * rest == a - a % (2 * p)
  {
    ModDouble(a / 2, p, a % 2);
  }

  lemma Pow2Eight()
    ensures Pow2(8) == 256
  {
  }

  lemma HalfBelow(a: nat, w: nat)
    requires w >= 1 && a < Pow2(w)
    ensures a / 2 < Pow2(w - 1)
  {
  }

  /** AND-ing the w-bit number a with the mask whose top w-j bits are set
      clears exactly the low j bits of a. */
  predicate ClearsLowBits(a: nat, w: nat, j: nat)
  {
    Pow2(j) <= Pow2(w) && BitAnd(a, Pow2(w) - Pow2(j)) == a - a % Pow2(j)
  }

  /** With no mask bits set, the AND is zero, as is a w-bit number with its
      low w bits cleared. */
  lemma BitAndNoMask(a: nat, w: nat)
    requires a < Pow2(w)
    ensures ClearsLowBits(a, w, w)
  {
    DivModUnique(a, Pow2(w), 0, a);
  }

  lemma BitAndZero(w: nat, j: nat)
    requires j <= w && Pow2(j) <= Pow2(w)
    ensures ClearsLowBits(0, w, j)
  {
  }

  lemma AllOnesHalves(w: nat, m: nat)
    requires 1 <= w && m == Pow2(w) - Pow2(0)
    ensures m >= 1 && m / 2 == Pow2(w - 1) - Pow2(0) && m % 2 == 1
  {
    var h := Pow2(w - 1) - 1;
    assert m == 2 * h + 1;
  }

  lemma AllOnesStep(a: nat, half: nat)
    requires half == a / 2 - (a / 2) % 1
    ensures 2 * half + a % 2 == a - a % 1
  {
  }

  /** The step of BitAndTopBits when every bit of the mask is set. */
  lemma BitAndAllBits(a: nat, w: nat)
    requires 1 <= w && 1 <= a < Pow2(w)
    requires Pow2(0) <= Pow2(w - 1) && BitAnd(a / 2, Pow2(w - 1) - Pow2(0)) == a / 2 - (a / 2) % Pow2(0)
    ensures ClearsLowBits(a, w, 0)
  {
    var m := Pow2(w) - Pow2(0);
    AllOnesHalves(w, m);
    BitAndStep(a, m);
    AllOnesStep(a, BitAnd(a / 2, m / 2));
  }

  lemma MaskHalves(w: nat, j: nat, m: nat)
    requires 1 <= j < w && Pow2(j + 1) <= Pow2(w) && m == Pow2(w) - Pow2(j)
    ensures m >= 1 && m / 2 == Pow2(w - 1) - Pow2(j - 1) && m % 2 == 0
  {
    var h := Pow2(w - 1) - Pow2(j - 1);
    assert m == 2 * h;
  }

  /** The step of BitAndTopBits when the low j >= 1 bits of the mask are clear. */
  lemma BitAndClearStep(a: nat, w: nat, j: nat)
    requires 1 <= j < w && 1 <= a < Pow2(w)
    requires Pow2(j - 1) <= Pow2(w - 1) && BitAnd(a / 2, Pow2(w - 1) - Pow2(j - 1)) == a / 2 - (a / 2) % Pow2(j - 1)
    ensures ClearsLowBits(a, w, j)
  {
    Pow2Monotone(j + 1, w);
    var m := Pow2(w) - Pow2(j);
    MaskHalves(w, j, m);
    BitAndStep(a, m);
    ClearLowStep(a, Pow2(j - 1), BitAnd(a / 2, m / 2));
  }

  /** A mask whose top w-j bits are set clears exactly the low j bits. */
  lemma {:induction false} BitAndTopBits(a: nat, w: nat, j: nat)
    requires j <= w && a < Pow2(w)
    ensures ClearsLowBits(a, w, j)
    decreases w, 1
  {
    if j == w {
      BitAndNoMask(a, w);
    } else if a == 0 {
      Pow2Monotone(j, w);
      BitAndZero(w, j);
    } else if j == 0 {
      BitAndTopBitsAll(a, w);
    } else {
      BitAndTopBitsClear(a, w, j);
    }
  }

  lemma {:induction false} BitAndTopBitsAll(a: nat, w: nat)
    requires 1 <= w && 1 <= a < Pow2(w)
    ensures ClearsLowBits(a, w, 0)
    decreases w, 0
  {
    HalfBelow(a, w);
    BitAndTopBits(a / 2, w - 1, 0);
    BitAndAllBits(a, w);
  }

  lemma {:induction false} BitAndTopBitsClear(a: nat, w: nat, j: nat)
    requires 1 <= j < w && 1 <= a < Pow2(w)
    ensures ClearsLowBits(a, w, j)
    decreases w, 0
  {
    HalfBelow(a, w);
    BitAndTopBits(a / 2, w - 1, j - 1);
    BitAndClearStep(a, w, j);
  }

  /** How many of the /cidr prefix bits fall in octet k. */
  function PrefixBits(cidr: int, k: int): (r: nat)
    ensures r <= 8
  {
    var bits := cidr - 8 * k;
    if bits < 0 then 0 else if bits > 8 then 8 else bits
  }

  lemma Pow2Table()
    ensures Pow2(0) == 1 && Pow2(1) == 2 && Pow2(2) == 4 && Pow2(3) == 8 && Pow2(4) == 16
    ensures Pow2(5) == 32 && Pow2(6) == 64 && Pow2(7) == 128 && Pow2(8) == 256
  {
  }

  /** The octet whose top p bits are set, for p = 0 .. 8. */
  const TopBitsOctet: seq<nat> := [0, 128, 192, 224, 240, 248, 252, 254, 255]

  /** Octet k of the /cidr prefix mask: its top PrefixBits(cidr, k) bits set. */
  function MaskOctet(cidr: int, k: int): (m: nat)
    ensures m < 256
  {
    TopBitsOctet[PrefixBits(cidr, k)]
  }

  /** The octet with the top p bits set is 2^8 less the low 8 - p bits. */
  lemma TopBitsOctetValue(p: nat)
    requires p <= 8
    ensures TopBitsOctet[p] == Pow2(8) - Pow2(8 - p)
  {
    Pow2Table();
  }

  /** Setting the next bit below the top b bits adds 2^(7 - b). */
  lemma TopBitsOctetStep(b: nat)
    requires b < 8
    ensures TopBitsOctet[b + 1] == TopBitsOctet[b] + Pow2(7 - b)
  {
    Pow2Table();
  }

  /** The address octet with its host bits cleared, which is what AND-ing it
      with the mask octet computes. */
  lemma NetworkOctetClearsHostBits(a: Octet, cidr: int, k: int)
    ensures BitAnd(a, MaskOctet(cidr, k)) == a - a % Pow2(8 - PrefixBits(cidr, k))
  {
    Pow2Eight();
    TopBitsOctetValue(PrefixBits(cidr, k));
    BitAndTopBits(a, 8, 8 - PrefixBits(cidr, k));
  }
}
