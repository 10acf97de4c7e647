/** Triangular probing over a table whose size is a power of two: the probe visits every slot once. */
module Probing {
  import opened Bits

  /** 0, 1, 3, 6, 10, ... */
  function Triangle(k: nat): (t: nat)
    ensures 2 * t == k * (k + 1)
  {
    if k == 0 then 0 else Triangle(k - 1) + k
  }

  /** The slot of probe k: the start, moved on by 1, 2, ..., k, in a table of n slots. */
  function SlotOf(h: nat, k: nat, n: nat): (s: nat)
    requires n > 0
    ensures s < n
  {
    (h + Triangle(k)) % n
  }

  lemma NextSlot(h: nat, k: nat, n: nat)
    requires n > 0
    ensures SlotOf(h, 0, n) == h % n
    ensures (SlotOf(h, k, n) + (k + 1)) % n == SlotOf(h, k + 1, n)
  {
    var x := h + Triangle(k);
    var q := x / n;
    assert x == q * n + x % n;
    var y := x % n + (k + 1);
    assert y == (y / n) * n + y % n;
    assert (q + y / n) * n == q * n + (y / n) * n;
    DivUnique(x + (k + 1), n, q + y / n, y % n);
  }

  predicate Divides(n: nat, x: int)
    requires n > 0
  {
    x % n == 0
  }

  /** An odd factor does not help a power of two to divide a product. */
  lemma {:induction false} OddCancels(n: nat, a: int, b: nat)
    requires IsPowerOfTwo(n) && a % 2 == 1 && Divides(n, a * b)
    ensures Divides(n, b)
    decreases n
  {
    if n > 1 {
      var h := n / 2;
      var q := (a * b) / n;
      assert a * b == q * n == 2 * (q * h) by { assert (a * b) == q * n + (a * b) % n; assert q * n == 2 * (q * h); }
      EvenProduct(a, b);
      var c := b / 2;
      assert b == 2 * c;
      assert a * c == q * h by { assert a * b == 2 * (a * c); }
      Multiple(q, h);
      OddCancels(h, a, c);
      assert c == (c / h) * h + c % h;
      assert b == (c / h) * n;
      Multiple(c / h, n);
    }
  }

  lemma OddProduct(a: int, b: int)
    requires a % 2 == 1 && b % 2 == 1
    ensures (a * b) % 2 == 1
  {
    var j := b / 2;
    assert b == 2 * j + 1;
    assert a * b == 2 * (a * j) + a;
  }

  lemma EvenProduct(a: int, b: int)
    requires a % 2 == 1 && (a * b) % 2 == 0
    ensures b % 2 == 0
  {
    if b % 2 == 1 {
      OddProduct(a, b);
    }
  }

  lemma Multiple(q: int, n: nat)
    requires n > 0
    ensures Divides(n, q * n)
  {
    DivUnique(q * n, n, q, 0);
  }

  lemma NotMultiple(n: nat, x: int)
    requires 0 < x < n
    ensures !Divides(n, x)
  {
    DivUnique(x, n, 0, x);
  }

  /** j - i and j + i + 1 are both too small to be multiples of 2n, and one of them is odd. */
  lemma GapsDivide(i: nat, j: nat, n: nat)
    requires IsPowerOfTwo(n) && i < j < n
    ensures !Divides(2 * n, (j - i) * (j + i + 1))
  {
    hide Divides;
    var p, q := j - i, j + i + 1;
    assert IsPowerOfTwo(2 * n) by { assert (2 * n) / 2 == n; }
    NotMultiple(2 * n, p);
    NotMultiple(2 * n, q);
    if Divides(2 * n, p * q) {
      if p % 2 == 1 {
        OddCancels(2 * n, p, q);
      } else {
        assert q == p + 2 * i + 1;
        Swap(p, q);
        OddCancels(2 * n, q, p);
      }
    }
  }

  lemma EqualRemainders(x: nat, y: nat, n: nat) returns (d: int)
    requires n > 0 && x % n == y % n
    ensures 2 * (y - x) == d * (2 * n)
  {
    d := y / n - x / n;
    assert x == (x / n) * n + x % n && y == (y / n) * n + y % n;
    assert (y / n) * n - (x / n) * n == d * n;
    assert d * (2 * n) == 2 * (d * n);
  }

  /** Two probes below n go to different slots. */
  lemma ProbesDiffer(h: nat, i: nat, j: nat, n: nat)
    requires IsPowerOfTwo(n) && i < j < n
    ensures SlotOf(h, i, n) != SlotOf(h, j, n)
  {
    hide Divides, IsPowerOfTwo, Triangle;
    GapsDivide(i, j, n);
    if SlotOf(h, i, n) == SlotOf(h, j, n) {
      var d := EqualRemainders(h + Triangle(i), h + Triangle(j), n);
      ProductOfGaps(i, j);
      Multiple(d, 2 * n);
    }
  }

  lemma Swap(a: int, b: int)
    ensures a * b == b * a
  {
  }

  lemma ProductOfGaps(i: nat, j: nat)
    requires i < j
    ensures (j - i) * (j + i + 1) == 2 * (Triangle(j) - Triangle(i))
  {
    assert (j - i) * (j + i + 1) == j * (j + 1) - i * (i + 1);
  }

  // ----- the pigeonhole -----

  function Visited(h: nat, k: nat, n: nat): (s: set<nat>)
    requires n > 0
  {
    if k == 0 then {} else Visited(h, k - 1, n) + {SlotOf(h, k - 1, n)}
  }

  lemma {:induction false} VisitedIs(h: nat, k: nat, n: nat, s: nat)
    requires n > 0 && s in Visited(h, k, n)
    ensures exists i: nat :: i < k && s == SlotOf(h, i, n)
    decreases k
  {
    if s in Visited(h, k - 1, n) {
      VisitedIs(h, k - 1, n, s);
    }
  }

  /** k probes visit k slots. */
  lemma {:induction false} VisitedSize(h: nat, k: nat, n: nat)
    requires IsPowerOfTwo(n) && k <= n
    ensures |Visited(h, k, n)| == k
    decreases k
  {
    if k > 0 {
      VisitedSize(h, k - 1, n);
      if SlotOf(h, k - 1, n) in Visited(h, k - 1, n) {
        VisitedIs(h, k - 1, n, SlotOf(h, k - 1, n));
        var i: nat :| i < k - 1 && SlotOf(h, k - 1, n) == SlotOf(h, i, n);
        ProbesDiffer(h, i, k - 1, n);
      }
    }
  }

  lemma SmallerSet(a: set<nat>, b: set<nat>)
    requires a <= b
    ensures |a| <= |b|
  {
    assert b == a + (b - a);
  }

  /** A probe that has only seen filled slots has not gone round the table, when fewer slots are filled than there are. */
  lemma ProbeEnds(h: nat, k: nat, n: nat, filled: set<nat>)
    requires IsPowerOfTwo(n) && k <= n && |filled| < n
    requires forall i: nat :: i < k ==> SlotOf(h, i, n) in filled
    ensures k < n
  {
    if k == n {
      VisitedSize(h, n, n);
      forall s | s in Visited(h, n, n) ensures s in filled {
        VisitedIs(h, n, n, s);
      }
      SmallerSet(Visited(h, n, n), filled);
    }
  }
}
