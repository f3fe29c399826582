// The buffer sizing policy of bstrings: snapUpSize and what it implies for any
// sequence of reallocations.
module Growth {

  // ---------- unsigned bit operations ----------

  // x >> n
  function Shr(x: nat, n: nat): nat
  {
    if n == 0 then x else Shr(x / 2, n - 1)
  }

  // x | y
  function Or(x: nat, y: nat): nat
  {
    if x == 0 && y == 0 then 0
    else (if x % 2 == 1 || y % 2 == 1 then 1 else 0) + 2 * Or(x / 2, y / 2)
  }

  function Pow2(n: nat): (p: nat)
    ensures p >= 1
  {
    if n == 0 then 1 else 2 * Pow2(n - 1)
  }

  // The least power of two greater than x.
  function NextPow2(x: nat): (p: nat)
    ensures x < p <= 2 * x + 1
  {
    if x == 0 then 1 else 2 * NextPow2(x / 2)
  }

  lemma {:induction false} NextPow2IsLeast(x: nat, k: nat)
    requires x < Pow2(k)
    ensures NextPow2(x) <= Pow2(k)
  {
    if x > 0 {
      assert k > 0;
      NextPow2IsLeast(x / 2, k - 1);
    }
  }

  lemma {:induction false} NextPow2IsPower(x: nat) returns (k: nat)
    ensures NextPow2(x) == Pow2(k)
  {
    if x == 0 {
      k := 0;
    } else {
      k := NextPow2IsPower(x / 2);
      k := k + 1;
    }
  }

  // Lengths the model works with: C's int is 32 bits wide and a size from
  // 2^30 up has no larger power of two that fits.
  const MAX_SIZE := 0x4000_0000

  // The size chosen for a request of i bytes: the least power of two greater
  // than i and at least 8, or i itself when that power does not fit an int.
  function Snapped(i: nat): nat
  {
    if i < 8 then 8 else if i < MAX_SIZE then NextPow2(i) else i
  }

  // x | (x >> 1) | ... | (x >> (n-1))
  ghost function Smear(x: nat, n: nat): nat
  {
    if n == 0 then 0 else Or(x, Smear(x / 2, n - 1))
  }

  lemma {:induction false} OrZero(x: nat)
    ensures Or(x, 0) == x
  {
    if x > 0 {
      OrZero(x / 2);
    }
  }

  lemma {:induction false} OrAssoc(x: nat, y: nat, z: nat)
    ensures Or(Or(x, y), z) == Or(x, Or(y, z))
    decreases x + y + z
  {
    if x == 0 && y == 0 && z == 0 {
    } else {
      OrAssoc(x / 2, y / 2, z / 2);
    }
  }

  lemma {:induction false} SmearHalf(x: nat, n: nat)
    ensures Smear(x, n) / 2 == Smear(x / 2, n)
  {
    if n > 0 {
      SmearHalf(x / 2, n - 1);
    }
  }

  lemma {:induction false} SmearShr(x: nat, n: nat, m: nat)
    ensures Shr(Smear(x, n), m) == Smear(Shr(x, m), n)
    decreases m
  {
    if m > 0 {
      SmearHalf(x, n);
      SmearShr(x / 2, n, m - 1);
    }
  }

  lemma {:induction false} SmearSum(x: nat, n: nat, m: nat)
    ensures Smear(x, n + m) == Or(Smear(x, n), Smear(Shr(x, n), m))
    decreases n
  {
    if n == 0 {
      OrAssoc(0, 0, Smear(x, m));
      OrZero(Smear(x, m));
      OrCommutes(Smear(x, m), 0);
    } else {
      SmearSum(x / 2, n - 1, m);
      OrAssoc(x, Smear(x / 2, n - 1), Smear(Shr(x, n), m));
    }
  }

  lemma {:induction false} OrCommutes(x: nat, y: nat)
    ensures Or(x, y) == Or(y, x)
    decreases x + y
  {
    if x == 0 && y == 0 {
    } else {
      OrCommutes(x / 2, y / 2);
    }
  }

  // One line of the source: or-ing with the value shifted by n doubles the smear.
  lemma SmearDoubles(x: nat, n: nat)
    ensures Or(Smear(x, n), Shr(Smear(x, n), n)) == Smear(x, n + n)
  {
    SmearShr(x, n, n);
    SmearSum(x, n, n);
  }

  lemma {:induction false} OrFillsBelow(x: nat)
    requires x > 0
    ensures Or(x, NextPow2(x / 2) - 1) == NextPow2(x) - 1
  {
    if x > 1 {
      OrFillsBelow(x / 2);
    } else {
      OrZero(1);
    }
  }

  lemma {:induction false} FullSmear(x: nat, n: nat)
    requires x < Pow2(n)
    ensures Smear(x, n) == NextPow2(x) - 1
  {
    if n == 0 {
    } else if x == 0 {
      FullSmear(0, n - 1);
    } else {
      FullSmear(x / 2, n - 1);
      OrFillsBelow(x);
    }
  }

  lemma Pow2At30()
    ensures Pow2(30) == MAX_SIZE
  {
    assert Pow2(6) == 64;
    assert Pow2(12) == 64 * Pow2(6);
    assert Pow2(18) == 64 * Pow2(12);
    assert Pow2(24) == 64 * Pow2(18);
    assert Pow2(30) == 64 * Pow2(24);
  }

  // The five or-shift lines of the source set every bit below the top one.
  lemma FiveStepsFill(i: nat)
    requires i < Pow2(32)
    ensures var j := Or(i, Shr(i, 1));
            var j := Or(j, Shr(j, 2));
            var j := Or(j, Shr(j, 4));
            var j := Or(j, Shr(j, 8));
            Or(j, Shr(j, 16)) == NextPow2(i) - 1
  {
    assert Smear(i, 1) == i by { OrZero(i); }
    SmearDoubles(i, 1);
    SmearDoubles(i, 2);
    SmearDoubles(i, 4);
    SmearDoubles(i, 8);
    SmearDoubles(i, 16);
    FullSmear(i, 32);
  }

  // The next power of two fits an int exactly below MAX_SIZE.
  lemma NextPow2Fits(i: nat)
    requires i < 2 * MAX_SIZE
    ensures i < Pow2(32)
    ensures NextPow2(i) < 2 * MAX_SIZE <==> i < MAX_SIZE
  {
    Pow2At30();
    assert Pow2(31) == 2 * Pow2(30) && Pow2(32) == 2 * Pow2(31);
    if i < MAX_SIZE {
      NextPow2IsLeast(i, 30);
    } else {
      var k := NextPow2IsPower(i);
      if NextPow2(i) < Pow2(31) {
        Pow2Strict(k, 31);
      }
    }
  }

  // snapUpSize
  method SnapUpSize(i: nat) returns (r: nat)
    requires i < 2 * MAX_SIZE
    ensures r == Snapped(i)
  {
    if i < 8 {
      r := 8;
    } else {
      NextPow2Fits(i);
      FiveStepsFill(i);
      var j := i;
      j := Or(j, Shr(j, 1));
      j := Or(j, Shr(j, 2));
      j := Or(j, Shr(j, 4));
      j := Or(j, Shr(j, 8));
      j := Or(j, Shr(j, 16));
      j := j + 1;
      r := if j < 2 * MAX_SIZE then j else i;
    }
  }

  // A buffer size the policy can produce.
  ghost predicate SnappedSize(mlen: nat)
  {
    exists k: nat :: k >= 3 && mlen == Pow2(k)
  }

  lemma SmallestSize(mlen: nat)
    requires SnappedSize(mlen)
    ensures mlen >= 8
  {
    var k: nat :| k >= 3 && mlen == Pow2(k);
    Pow2AtLeast8(k);
  }

  lemma {:induction false} Pow2AtLeast8(k: nat)
    requires k >= 3
    ensures Pow2(k) >= 8
  {
    if k > 3 {
      Pow2AtLeast8(k - 1);
    } else {
      assert Pow2(2) == 4;
    }
  }

  // One edit that leaves a string of n characters changed a buffer of m bytes
  // to one of m2: it kept it, or snapped up some request of at most n + 1 bytes.
  ghost predicate Resized(m: nat, m2: nat, n: nat)
  {
    m2 == m || exists olen: nat :: m <= olen <= n + 1 && m2 == Snapped(olen)
  }

  lemma SnappedBounds(i: nat)
    requires i < 0x4000_0000
    ensures i < Snapped(i) && 8 <= Snapped(i)
    ensures Snapped(i) == 8 || Snapped(i) <= 2 * i
    ensures SnappedSize(Snapped(i))
  {
    if i < 8 {
      assert Pow2(3) == 8;
    } else {
      var k := NextPow2IsPower(i);
      assert Pow2(0) == 1 && Pow2(1) == 2 && Pow2(2) == 4;
      NextPow2Even(i);
    }
  }

  lemma NextPow2Even(x: nat)
    requires x > 0
    ensures NextPow2(x) <= 2 * x
  {
    if x > 1 {
      NextPow2Even(x / 2);
    }
  }

  lemma {:induction false} Pow2Strict(j: nat, k: nat)
    requires Pow2(j) < Pow2(k)
    ensures 2 * Pow2(j) <= Pow2(k)
  {
    if k == 0 {
    } else if j > 0 {
      Pow2Strict(j - 1, k - 1);
    }
  }

  // One resize keeps the size a power of two and below the documented bound,
  // and a resize that moves the buffer at least doubles it.
  lemma ResizeKeepsPolicy(m: nat, m2: nat, n: nat, peak: nat)
    requires Resized(m, m2, n) && n <= peak && peak + 1 < MAX_SIZE
    requires SnappedSize(m) && (m == 8 || m <= 2 * (peak + 1))
    ensures SnappedSize(m2) && (m2 == 8 || m2 <= 2 * (peak + 1))
    ensures m2 == m || 2 * m <= m2
  {
    if m2 != m {
      var olen: nat :| m <= olen <= n + 1 && m2 == Snapped(olen);
      SnappedBounds(olen);
      var j: nat :| j >= 3 && m == Pow2(j);
      var k: nat :| k >= 3 && m2 == Pow2(k);
      Pow2Strict(j, k);
    }
  }
}
