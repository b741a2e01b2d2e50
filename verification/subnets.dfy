/** IPv4 blocks as masks (RFC 4632 section 3.1) and as address ranges: what ParseCIDR, Contains
    and cidrOverlaps of internal/network/user_network.go compute, and what that means. */
module Subnets {
  const WIDTH: nat := 32

  const ADDRESSES: nat := 0x1_0000_0000

  type Address = a: nat | a < ADDRESSES

  /** A parsed block; `base` is already masked. */
  datatype Cidr = Cidr(base: Address, prefix: nat)

  function Pow2(n: nat): (r: nat)
    ensures r > 0
  {
    if n == 0 then 1 else 2 * Pow2(n - 1)
  }

  /** Bitwise and of the lowest `bits` bits. */
  function And(x: nat, y: nat, bits: nat): nat {
    if bits == 0 then 0
    else 2 * And(x / 2, y / 2, bits - 1) + if x % 2 == 1 && y % 2 == 1 then 1 else 0
  }

  function Size(prefix: nat): (r: nat)
    requires prefix <= WIDTH
    ensures r > 0
  {
    Pow2(WIDTH - prefix)
  }

  lemma {:induction false} PowMonotone(k: nat, n: nat)
    requires k <= n
    ensures Pow2(k) <= Pow2(n)
  {
    if k < n {
      PowMonotone(k, n - 1);
    }
  }

  lemma {:induction false} Pow32()
    ensures Pow2(WIDTH) == ADDRESSES
  {
    assert Pow2(8) == 256;
    assert Pow2(16) == 65536 by { assert Pow2(12) == 4096; }
    assert Pow2(24) == 16777216 by { assert Pow2(20) == 1048576; }
    assert Pow2(28) == 268435456;
  }

  /** `prefix` ones and then zeros, on 32 bits. */
  function Mask(prefix: nat): nat
    requires prefix <= WIDTH
  {
    PowMonotone(WIDTH - prefix, WIDTH);
    Pow2(WIDTH) - Size(prefix)
  }

  // ---------------------------------------------------------------- division

  lemma {:induction false} MulOrder(d: nat, a: int, b: int)
    ensures a < b ==> d * a + d <= d * b
  {
    if a < b {
      var gap := b - a - 1;
      assert d * gap >= 0;
      assert d * b == d * (a + 1 + gap) == d * a + d + d * gap;
    }
  }

  lemma {:induction false} DivisionIsUnique(x: int, d: nat, q: int, r: int)
    requires d > 0 && 0 <= r < d && x == d * q + r
    ensures x / d == q && x % d == r
  {
    assert x == d * (x / d) + x % d;
    MulOrder(d, x / d, q);
    MulOrder(d, q, x / d);
  }

  lemma {:induction false} HalfRemainder(x: nat, d: nat)
    requires d > 0
    ensures x % (2 * d) == 2 * ((x / 2) % d) + x % 2
  {
    var q, r := (x / 2) / d, (x / 2) % d;
    assert x / 2 == d * q + r;
    assert x == 2 * (d * q) + 2 * r + x % 2;
    assert 2 * (d * q) == (2 * d) * q;
    DivisionIsUnique(x, 2 * d, q, 2 * r + x % 2);
  }

  lemma {:induction false} FloorFacts(x: nat, s: nat)
    requires s > 0
    ensures 0 <= x - x % s <= x < x - x % s + s && (x - x % s) % s == 0
  {
    assert x == s * (x / s) + x % s;
    DivisionIsUnique(x - x % s, s, x / s, 0);
  }

  lemma {:induction false} SameFloor(b: nat, x: nat, s: nat)
    requires s > 0 && b % s == 0
    ensures x - x % s == b <==> b <= x < b + s
  {
    FloorFacts(x, s);
    if b <= x < b + s {
      assert b == s * (b / s);
      DivisionIsUnique(x, s, b / s, x - b);
    }
  }

  /** A multiple of the larger size that is at most `x` is at most the floor of `x`. */
  lemma {:induction false} FloorAbove(a: nat, s: nat, b: nat, t: nat, k: nat, x: nat)
    requires s > 0 && t == s * k && t > 0 && a % s == 0 && b % t == 0 && x < a + s && b <= x
    ensures b <= a
  {
    var m := k * (b / t);
    assert b == t * (b / t) == (s * k) * (b / t) == s * m;
    assert a == s * (a / s);
    MulOrder(s, a / s, m);
  }

  // ---------------------------------------------------------------- masks

  lemma {:induction false} AndOnes(x: nat, q: nat, n: nat)
    requires n > 0 && q > 0 && And(x / 2, q - 1, n - 1) == x / 2
    ensures And(x, 2 * q - 1, n) == x
  {
    var m := 2 * q - 1;
    assert m / 2 == q - 1 && m % 2 == 1;
  }

  lemma {:induction false} AndAllOnes(x: nat, n: nat)
    requires x < Pow2(n)
    ensures And(x, Pow2(n) - 1, n) == x
  {
    if n > 0 {
      AndAllOnes(x / 2, n - 1);
      AndOnes(x, Pow2(n - 1), n);
    }
  }

  /** The number with its lowest `k` bits cleared. */
  function ClearLow(x: nat, k: nat): nat {
    if k == 0 then x else 2 * ClearLow(x / 2, k - 1)
  }

  lemma {:induction false} AndEven(x: nat, m: nat, n: nat)
    requires n > 0
    ensures And(x, 2 * m, n) == 2 * And(x / 2, m, n - 1)
  {
    assert (2 * m) / 2 == m && (2 * m) % 2 == 0;
  }

  lemma {:induction false} AndMaskClears(x: nat, k: nat, n: nat)
    requires k <= n && x < Pow2(n)
    ensures Pow2(k) <= Pow2(n) && And(x, Pow2(n) - Pow2(k), n) == ClearLow(x, k)
    decreases n
  {
    PowMonotone(k, n);
    if k == 0 {
      AndAllOnes(x, n);
    } else {
      PowMonotone(k - 1, n - 1);
      AndMaskClears(x / 2, k - 1, n - 1);
      AndEven(x, Pow2(n - 1) - Pow2(k - 1), n);
    }
  }

  lemma {:induction false} ClearLowIsFloor(x: nat, k: nat)
    ensures ClearLow(x, k) == x - x % Pow2(k)
    decreases k
  {
    if k > 0 {
      ClearLowIsFloor(x / 2, k - 1);
      HalfRemainder(x, Pow2(k - 1));
    }
  }

  /** And with a mask clears the low bits. */
  lemma {:induction false} AndClearsLowBits(x: nat, k: nat, n: nat)
    requires k <= n && x < Pow2(n)
    ensures Pow2(k) <= Pow2(n) && And(x, Pow2(n) - Pow2(k), n) == x - x % Pow2(k)
  {
    AndMaskClears(x, k, n);
    ClearLowIsFloor(x, k);
  }

  /** ParseCIDR on a well-formed IPv4 text. */
  function Parse(ip: Address, prefix: nat): (c: Cidr)
    requires prefix <= WIDTH
    ensures IsBlock(c) && c.prefix == prefix
    ensures c.base <= ip < c.base + Size(prefix)
  {
    MaskedBase(ip, prefix);
    Cidr(And(ip, Mask(prefix), WIDTH), prefix)
  }

  lemma {:induction false} MaskedBase(ip: Address, prefix: nat)
    requires prefix <= WIDTH
    ensures And(ip, Mask(prefix), WIDTH) == ip - ip % Size(prefix)
    ensures (ip - ip % Size(prefix)) % Size(prefix) == 0
  {
    Pow32();
    AndClearsLowBits(ip, WIDTH - prefix, WIDTH);
    FloorFacts(ip, Size(prefix));
  }

  ghost predicate IsBlock(c: Cidr) {
    c.prefix <= WIDTH && c.base % Size(c.prefix) == 0
  }

  predicate InRange(c: Cidr, ip: nat)
    requires c.prefix <= WIDTH
  {
    c.base <= ip < c.base + Size(c.prefix)
  }

  /** Contains of the Go net package: both sides agree under the mask. */
  predicate Contains(c: Cidr, ip: Address)
    requires c.prefix <= WIDTH
  {
    And(c.base, Mask(c.prefix), WIDTH) == And(ip, Mask(c.prefix), WIDTH)
  }

  lemma {:induction false} ContainsIsRange(c: Cidr, ip: Address)
    requires IsBlock(c)
    ensures Contains(c, ip) <==> InRange(c, ip)
  {
    MaskedBase(c.base, c.prefix);
    MaskedBase(ip, c.prefix);
    SameFloor(c.base, ip, Size(c.prefix));
  }

  predicate Overlaps(left: Cidr, right: Cidr)
    requires left.prefix <= WIDTH && right.prefix <= WIDTH
  {
    Contains(left, right.base) || Contains(right, left.base)
  }

  lemma {:induction false} PowDivides(s: nat, t: nat) returns (k: nat)
    requires s <= t
    ensures Pow2(t) == Pow2(s) * k
    decreases t
  {
    if s == t {
      k := 1;
    } else {
      var h := PowDivides(s, t - 1);
      k := 2 * h;
      assert Pow2(s) * (2 * h) == 2 * (Pow2(s) * h);
    }
  }

  /** A smaller block that meets a larger one begins inside it. */
  lemma {:induction false} SmallerBlockNests(small: Cidr, large: Cidr, x: nat)
    requires IsBlock(small) && IsBlock(large) && large.prefix <= small.prefix
    requires InRange(small, x) && InRange(large, x)
    ensures InRange(large, small.base)
  {
    var k := PowDivides(WIDTH - small.prefix, WIDTH - large.prefix);
    FloorAbove(small.base, Size(small.prefix), large.base, Size(large.prefix), k, x);
  }

  /** The mask test says exactly whether the two address ranges share an address. */
  lemma {:induction false} OverlapsIsIntersection(left: Cidr, right: Cidr)
    requires IsBlock(left) && IsBlock(right)
    ensures Overlaps(left, right) <==> exists ip :: InRange(left, ip) && InRange(right, ip)
  {
    ContainsIsRange(left, right.base);
    ContainsIsRange(right, left.base);
    if InRange(left, right.base) {
      assert InRange(right, right.base);
    }
    if InRange(right, left.base) {
      assert InRange(left, left.base);
    }
    forall ip | InRange(left, ip) && InRange(right, ip)
      ensures Overlaps(left, right)
    {
      if left.prefix <= right.prefix {
        SmallerBlockNests(right, left, ip);
      } else {
        SmallerBlockNests(left, right, ip);
      }
    }
  }
}
